# NachOS, modelled and proved in Dafny

NachOS is a small teaching operating system that runs on a simulated MIPS machine. This project models its hard parts and
proves what they promise:

- **The disk file system**: the packed free map, file headers, the directory, sector-by-sector reads and writes, format,
  Create, Open and Remove. The disk is an array of 128-byte sectors, and everything is proved down to those bytes. Whatever
  operations follow a format, the marked sectors are exactly the owned ones, no sector has two owners, and every answer is the
  one that a map from names to byte arrays would give (`FileSystemRuns.Session`). That map alone decides whether Create
  succeeds (`Capacity.CreateNeedsRoom`).
- **Threads and synchronisation**: semaphores with the scheduler, the Mesa monitor behind SynchList, the synchronous disk, and
  the Exec/Join/Exit handshake. Each is a step machine; the results hold in every state of every run. They tell what the calls
  that were made get: threads are woken and dispatched first come, first served (`SchedulingOrder.FirstComeFirstWoken`,
  `SchedulingOrder.FirstReadyFirstRun`), Join is refused exactly for what is no live child
  (`ProcessHistory.JoinAnswers`), and where nothing can go on nothing is left half way (`SynchListRuns.NeverStuck`,
  `SynchDisks.NeverStuck`).
- **The post office** over a network that keeps packets in order but may lose any of them. The calls and the losses fix what
  reaches every host (`PostOfficeRuns.WireExact`), and all of it ends in its mailbox (`PostOfficeRuns.AllDelivered`).
- **The simulated hardware**: the interrupt queue and clock, the shift-and-add multiplier, the unaligned load and store pairs
  with delayed loads, the timing of the disk, page translation and address spaces.
- **Containers and small algorithms**: the linked list and sorted list, the self-expanding hash table, the decimal printer and
  reader, the greedy choice between two water taps.

Code that updates objects and arrays in place is modelled by classes, arrays and loops. Code that threads interleave is
modelled by states and steps: a stretch with interrupts off is one step, and between two steps any other thread, device or host
may act. `Semaphores` treats the semaphore itself at the finest grain, with P's loop, the wait queues and the ready list; the
other step machines use a semaphore operation as one step that is enabled when it can complete.

Where the source and its comments differ, the model follows the source. Some promises turned out not to hold everywhere, and
are stated with the exact condition under which they do: `DecimalNumbers.PrintThenRead` (the most negative number prints as a
bare minus sign), `DecimalNumbers.AnswerNumeral` (typed in full it is answered 0, since exception.cc defines its own INT_MIN,
one too high), and `DecimalNumbers.AnswerOutOfRange` (a numeral beyond 64 bits can be taken for a small number). Another
concerns the store pair SWR and SWL: a load of the stored register that is still pending lands between the two, and
`UnalignedAccess.UnalignedStore` says exactly when that shows. ReadNum does not always take its whole line
(`DecimalNumbers.UnreadExact`), and a write through a file that was opened before it was removed can damage another file's
header or contents (`FileHandles.HandleWriteExact`, `FileHandles.SparesExact`). ReadAt and WriteAt cut a request at the end of
the file only if their 32-bit sum does not overflow (`OpenFiles.CutExact`).

`dafny verify dfyconfig.toml` checks the whole project.

| file | module | what it models |
|---|---|---|
| Words.dfy | Words | bytes, 32-bit words, bit operations, little-endian encoding |
| Options.dfy | Options | a value or none |
| Bitmap.dfy | Bitmaps | lib/bitmap.cc |
| FileHeader.dfy | Files | filesys/filehdr.cc |
| OpenFile.dfy | OpenFiles | filesys/openfile.cc |
| Directory.dfy | Directories | filesys/directory.cc, filesys/pbitmap.cc |
| FileHandles.dfy | FileHandles | open files that outlive Remove |
| SectorOwnership.dfy, DiskLayout.dfy | SectorOwnership, DiskLayout | the invariant and what the bytes of a disk mean |
| FileSystem.dfy, FileSystemRuns.dfy, Capacity.dfy | FileSystems, FileSystemRuns, Capacity | filesys/filesys.cc, one call and whole runs |
| Semaphores.dfy, SchedulingOrder.dfy | Semaphores, SchedulingOrder | threads/synch.cc, thread.cc, scheduler.cc |
| SynchLists.dfy, SynchListRuns.dfy | SynchLists, SynchListRuns | threads/synchlist.cc with Lock and Condition |
| SynchDisks.dfy | SynchDisks | filesys/synchdisk.cc over machine/disk.cc |
| ProcessTable.dfy, ProcessHistory.dfy | ProcessTable, ProcessHistory | threads/ptable.cc, threads/pcb.cc |
| PostOffice.dfy, PostOfficeRuns.dfy | PostOffice, PostOfficeRuns | network/post.cc over machine/network.cc |
| QueueHistory.dfy | QueueHistory | what enters and leaves a queue, read off its contents |
| DiskFormat.dfy | DiskFormat | the byte offsets of everything on the disk and on the wire |
| Multiplier.dfy, UnalignedAccess.dfy | Multiplier, UnalignedAccess | machine/mipssim.cc |
| Interrupts.dfy | Interrupts | machine/interrupt.cc |
| DiskTiming.dfy | DiskTiming | machine/disk.cc |
| AddressSpaces.dfy | AddressSpaces | userprog/addrspace.cc, machine/translate.cc |
| Lists.dfy, HashTable.dfy | Lists, HashTables | lib/list.cc, lib/hash.cc |
| DecimalNumbers.dfy | DecimalNumbers | ReadNum and PrintNum in userprog/exception.cc |
| WaterTaps.dfy | WaterTaps | test/watertap.c |

## Model

| member | source | states |
|---|---|---|
| `Bitmaps.WordUpdate` | NachOS-4.0/code/lib/bitmap.cc:56-80 | setting or clearing one bit of one packed word changes exactly that position of the whole map |
| `Bitmaps.Bitmap.constructor` | NachOS-4.0/code/lib/bitmap.cc:21-36 | a new map has every position clear |
| `Bitmaps.Bitmap.Mark` | NachOS-4.0/code/lib/bitmap.cc:56-63 | exactly the named position becomes set |
| `Bitmaps.Bitmap.Clear` | NachOS-4.0/code/lib/bitmap.cc:73-80 | exactly the named position becomes clear |
| `Bitmaps.Bitmap.Test` | NachOS-4.0/code/lib/bitmap.cc:90-99 | the masked word tells the position's value |
| `Bitmaps.Bitmap.FindAndSet` | NachOS-4.0/code/lib/bitmap.cc:111-120 | first fit: the lowest clear position is set, and -1 exactly when every position is set |
| `Bitmaps.Bitmap.NumClear` | NachOS-4.0/code/lib/bitmap.cc:129-139 | the number of clear positions |
| `Bitmaps.CountClearUpdate` | NachOS-4.0/code/lib/bitmap.cc:129-139 | one position set or cleared changes the count of clear ones by exactly one |
| `Words.WordsRoundTrip` | NachOS-4.0/code/filesys/pbitmap.cc:64-80 | 32-bit words written as bytes are read back as the same words |
| `Words.DivRoundUpLeast` | NachOS-4.0/code/lib/utility.h:25-25 | divRoundUp gives as many pieces as are needed and not one more |
| `Files.HeaderRoundTrip` | NachOS-4.0/code/filesys/filehdr.cc:84-100 | a header written to a sector is fetched back as the same header |
| `Files.FlatFrame` | NachOS-4.0/code/filesys/filehdr.cc:113-116 | a file's contents depend on its own data sectors only |
| `Bitmaps.TakeNext` | NachOS-4.0/code/filesys/filehdr.cc:51-57 | taking what FindAndSet yields, again and again, is a first fit and uses up one clear sector each time |
| `Bitmaps.MarkedCount` | NachOS-4.0/code/filesys/filehdr.cc:51-57 | marking distinct clear sectors lowers the count of clear ones by their number |
| `Files.FileHeader.Allocate` | NachOS-4.0/code/filesys/filehdr.cc:44-58 | fails exactly when too few sectors are clear, and then changes no bit; otherwise takes a first fit of exactly the needed number |
| `Files.FileHeader.Deallocate` | NachOS-4.0/code/filesys/filehdr.cc:68-74 | every data sector was marked, and exactly those become clear |
| `Files.FileHeader.FetchFrom` | NachOS-4.0/code/filesys/filehdr.cc:84-87 | the header becomes the one stored in the sector |
| `Files.FileHeader.WriteBack` | NachOS-4.0/code/filesys/filehdr.cc:97-100 | only that sector changes, and it decodes to this header |
| `Files.FileHeader.ByteToSector` | NachOS-4.0/code/filesys/filehdr.cc:113-116 | on any disk, byte number offset of the file's flat contents is byte offset mod 128 of this sector |
| `OpenFiles.CutExact` | NachOS-4.0/code/filesys/openfile.cc:130-133 | the 32-bit comparison keeps a request inside the file if and only if position + numBytes does not overflow or is not needed |
| `OpenFiles.CutOverflows` | NachOS-4.0/code/filesys/openfile.cc:130-133 | a request that is not cut |
| `OpenFiles.OpenFile.ReadAt` | NachOS-4.0/code/filesys/openfile.cc:124-150 | whenever that cut works, returns and copies all the bytes asked for, or all that are left of the file, for every aligned or unaligned range; nothing changes |
| `OpenFiles.OpenFile.WriteAt` | NachOS-4.0/code/filesys/openfile.cc:153-191 | whenever that cut works, all the bytes given, or as many as fit before the end of the file, replace the contents from position on; the rest of the file and every sector outside it stay |
| `OpenFiles.OpenFile.ReadPartialSectors` | NachOS-4.0/code/filesys/openfile.cc:172-180 | after this the buffer's bytes around the request are those on disk |
| `OpenFiles.PartialSectorsPrefill` | NachOS-4.0/code/filesys/openfile.cc:172-180 | fetching the first and last sector only when they are partly written is enough |
| `OpenFiles.StoredMergedIsSplice` | NachOS-4.0/code/filesys/openfile.cc:182-188 | writing whole merged sectors back equals replacing just the requested bytes |
| `OpenFiles.SectorRunSlice` | NachOS-4.0/code/filesys/openfile.cc:136-147 | the whole sectors read, cut at the right offset, are the requested slice |
| `OpenFiles.OpenFile.Read` | NachOS-4.0/code/filesys/openfile.cc:82-87 | reads the slice at the seek position, leaves the rest of the buffer, and advances the position by what was read |
| `OpenFiles.OpenFile.Write` | NachOS-4.0/code/filesys/openfile.cc:90-95 | writes at the seek position and advances it by what was written |
| `OpenFiles.OpenFile.Seek` | NachOS-4.0/code/filesys/openfile.cc:63-66 | sets the position and nothing else |
| `FileSystemRuns.TransfersAreComplete` | NachOS-4.0/code/filesys/openfile.cc:82-95 | seen by a user: Read and Write answer 0 only if nothing is asked for or the file ends, stop short only at its end, and move exactly those bytes |
| `Directories.StrnEqualIsCanon` | NachOS-4.0/code/filesys/directory.cc:90-96 | comparing the first nine characters is equality of the names cut at nine characters and at the first NUL |
| `Directories.CanonStrncpy` | NachOS-4.0/code/filesys/directory.cc:137-137 | a stored name stands for the name it was copied from, cut at nine characters |
| `FileSystems.NineCharacters` | NachOS-4.0/code/filesys/directory.h:22-22 | a name is known by its first nine characters |
| `Directories.TableRoundTrip` | NachOS-4.0/code/filesys/directory.cc:63-79 | a table written to the directory file is fetched back as the same table |
| `Directories.Directory.FindIndex` | NachOS-4.0/code/filesys/directory.cc:90-96 | the first in-use entry of that name, and -1 exactly when there is none |
| `Directories.Directory.Find` | NachOS-4.0/code/filesys/directory.cc:108-115 | the header sector of that entry, and -1 exactly when there is none |
| `Directories.Directory.Add` | NachOS-4.0/code/filesys/directory.cc:129-142 | succeeds exactly when the name is absent and an entry is unused; then the first unused entry takes it and the others stay |
| `Directories.Directory.Remove` | NachOS-4.0/code/filesys/directory.cc:153-161 | succeeds exactly when the name is present; then only that entry's in-use flag is cleared |
| `Directories.FetchBitmap` | NachOS-4.0/code/filesys/pbitmap.cc:64-67 | the in-memory map becomes the one stored in the file |
| `Directories.WriteBackBitmap` | NachOS-4.0/code/filesys/pbitmap.cc:77-80 | the file holds the map's words, and only its data sectors change |
| `SectorOwnership.AddKeepsInvariant` | NachOS-4.0/code/filesys/filesys.cc:189-211 | a new file on clear sectors under a new name keeps: marked bits are exactly the owned sectors, owners disjoint, names distinct |
| `SectorOwnership.RemoveKeepsInvariant` | NachOS-4.0/code/filesys/filesys.cc:272-281 | giving a file's sectors back keeps the same |
| `SectorOwnership.OwnersApart` | NachOS-4.0/code/filesys/filesys.cc:174-286 | no sector, header or data, belongs to two files |
| `DiskLayout.WritesAddFile` | NachOS-4.0/code/filesys/filesys.cc:203-206 | the write-backs of header, directory and free map, as bytes on disk, add exactly one file |
| `DiskLayout.WritesRemoveFile` | NachOS-4.0/code/filesys/filesys.cc:280-281 | the write-backs of Remove take exactly one file away |
| `DiskLayout.AddedFileMap` | NachOS-4.0/code/filesys/filesys.cc:175-214 | to the user, Create adds one name; every other file keeps its bytes |
| `DiskLayout.RemovedFileMap` | NachOS-4.0/code/filesys/filesys.cc:257-286 | to the user, Remove takes one name away; every other file keeps its bytes |
| `DiskLayout.UserWrite` | NachOS-4.0/code/filesys/openfile.cc:153-191 | a write to one user file keeps the disk consistent and changes no other file, although it writes whole sectors |
| `FileSystems.FileSystem.Format` | NachOS-4.0/code/filesys/filesys.cc:81-143 | the formatted disk is consistent and holds no user file, whatever was on it |
| `FileSystems.FileSystem.Mount` | NachOS-4.0/code/filesys/filesys.cc:137-142 | opens the two system files of any disk, changing nothing; on a consistent disk the result is a valid file system |
| `FileSystems.FileSystem.Create` | NachOS-4.0/code/filesys/filesys.cc:175-214 | succeeds exactly when the name is new, an entry is unused and enough sectors are clear; a failing Create leaves the disk as it was; a successful one adds the file, laid out first fit |
| `FileSystems.FileSystem.Open` | NachOS-4.0/code/filesys/filesys.cc:227-240 | null exactly when the name is unknown; otherwise a file on that name's contents |
| `FileSystems.FileSystem.Remove` | NachOS-4.0/code/filesys/filesys.cc:257-286 | succeeds exactly when the name is known and then removes just that file; otherwise the disk stays as it was |
| `FileSystems.FormatInvariant` | NachOS-4.0/code/filesys/filesys.cc:94-101 | after format the marked sectors are 0, 1 and the data of the two system files, without overlap |
| `FileSystems.FlushedIsCreated` | NachOS-4.0/code/filesys/filesys.cc:189-211 | what reached the disk is the old file system plus the new file |
| `FileSystemRuns.CreateThenRemoveRestores` | NachOS-4.0/code/filesys/filesys.cc:175-286 | Create followed by Remove of the same name gives back the free map, the directory's files and every file's contents |
| `FileSystemRuns.Execute` | NachOS-4.0/code/filesys/filesys.cc:175-286 | each operation answers and acts as the same operation on a map from names to bytes |
| `FileSystemRuns.Session` | NachOS-4.0/code/filesys/filesys.cc:81-286 | format and any sequence of operations: the disk stays consistent and all answers are those of the abstract store |
| `DiskFormat.SystemBytes` | NachOS-4.0/code/filesys/filesys.cc:55-66 | on every bootable disk: sector 0 holds the header of the free map, sector s is taken exactly if bit s mod 8 of its byte s / 8 is set; sector 1 holds the header of the directory, ten entries of twenty bytes with flag, header sector and name at offsets 0, 4 and 8 |
| `DiskFormat.HeaderBytes` | NachOS-4.0/code/filesys/filehdr.h:59-63 | a header sector: length at byte 0, number of sectors at byte 4, thirty sector numbers from byte 8 on, low byte first |
| `DiskFormat.MapBits` | NachOS-4.0/code/lib/bitmap.cc:56-99 | position s of a packed map is bit s mod 8 of byte s / 8 of its words' bytes |
| `FileHandles.HandleWriteExact` | NachOS-4.0/code/filesys/openfile.cc:153-191 | a handle may outlive Remove: every write through it leaves the file system in order if and only if none of its data sectors holds a header now |
| `FileHandles.HandleWrite` | NachOS-4.0/code/filesys/openfile.cc:153-191 | a write that hits no header leaves free map, names and places as they are |
| `FileHandles.DamageShows` | NachOS-4.0/code/filesys/openfile.cc:153-191 | if a data sector of the handle holds a header, writing a single byte damages it, whatever else the sector write brings |
| `FileHandles.DataDamageShows` | NachOS-4.0/code/filesys/openfile.cc:153-191 | if it holds data of a file, writing a single byte changes that file's contents |
| `FileHandles.SparesExact` | NachOS-4.0/code/filesys/openfile.cc:153-191 | file by file: every write through a handle leaves the file's header and contents as they are if and only if the two share no sector now |
| `FileHandles.OthersSparedExact` | NachOS-4.0/code/filesys/openfile.cc:153-191 | so a handle is safe for all other files exactly if it shares a sector with none of them |
| `FileHandles.StepKeepsHandles` | NachOS-4.0/code/filesys/filesys.cc:175-286 | Create, Remove, Open and harmless writes keep every handle clear of the system files and the disk in order |
| `FileHandles.RunKeepsHandles` | NachOS-4.0/code/filesys/filesys.cc:175-286 | so does every run of them |
| `FileHandles.StaleHandleHitsHeader` | NachOS-4.0/code/filesys/filesys.cc:175-286 | create, open, remove, create an empty file, create another: first fit puts the last header into the handle's data sector |
| `FileHandles.StaleHandle` | NachOS-4.0/code/filesys/filesys.cc:81-286 | that run can be made on every disk, from format on |
| `Capacity.SectorsConserved` | NachOS-4.0/code/filesys/filesys.cc:81-286 | clear sectors and owned sectors always add up to the whole disk |
| `Capacity.ClearSectors` | NachOS-4.0/code/filesys/filehdr.cc:44-58 | the number of clear sectors follows from the sizes of the user's files alone |
| `Capacity.CreateNeedsRoom` | NachOS-4.0/code/filesys/filesys.cc:175-214 | Create succeeds if and only if the name is new, there are fewer than ten files and the sectors of all files together fit |
| `Semaphores.NextKeepsInv` | NachOS-4.0/code/threads/synch.cc:76-117 | every step of threads, scheduler and interrupt handlers keeps the invariant |
| `Semaphores.RunInv` | NachOS-4.0/code/threads/thread.cc:206-259 | the invariant holds in every state of every run |
| `Semaphores.TryPKeepsInv` | NachOS-4.0/code/threads/synch.cc:76-92 | one turn of P's loop keeps it, whether it takes the value or sleeps |
| `Semaphores.VKeepsInv` | NachOS-4.0/code/threads/synch.cc:103-117 | V keeps it, called by a thread or by any number of interrupt handlers in a row, also while the CPU idles; whom it wakes is told by SchedulingOrder.FirstComeFirstWoken |
| `Semaphores.YieldKeepsInv` | NachOS-4.0/code/threads/thread.cc:206-221 | Yield keeps it |
| `Semaphores.DispatchKeepsInv` | NachOS-4.0/code/threads/thread.cc:244-259 | a sleeping CPU that picks the next ready thread keeps it, also when that is the sleeper itself |
| `Semaphores.ResumeKeepsInv` | NachOS-4.0/code/threads/scheduler.cc:104-167 | deleting a finished thread after the switch, and going on, keeps it |
| `Semaphores.CanStep` | NachOS-4.0/code/threads/scheduler.cc:75-150 | unless the CPU idles with nothing ready, some step is possible |
| `Semaphores.SemaphoresAreAtomic` | NachOS-4.0/code/threads/synch.cc:76-117 | seen at one semaphore, every step of every run is a stutter, a whole V, or a whole P taken from a positive value, and which step is which |
| `Semaphores.SemaphoreLaw` | NachOS-4.0/code/threads/synch.cc:76-117 | value = initial + completed Vs - completed Ps, and never negative |
| `Semaphores.LockExcludes` | NachOS-4.0/code/threads/synch.cc:181-203 | a semaphore that starts at 1 is never taken twice without a release between |
| `Semaphores.WaitersAreWoken` | NachOS-4.0/code/threads/synch.cc:76-117 | no lost wakeup: while threads wait, the value is at most the number of woken threads, each ready or running, not yet back at it |
| `Semaphores.IdleMeansZero` | NachOS-4.0/code/threads/thread.cc:244-259 | when the CPU sleeps with nothing ready, every semaphore that threads wait for stands at 0 |
| `Semaphores.OnePlace` | NachOS-4.0/code/threads/scheduler.cc:57-84 | no thread is in two lists or twice in one |
| `Semaphores.AppendNeverFails` | NachOS-4.0/code/lib/list.cc:75-89 | no step of any run appends a thread to a list that already holds it |
| `Semaphores.CarcassAssertions` | NachOS-4.0/code/threads/scheduler.cc:104-167 | at most one finished thread waits for deletion, and none deletes itself |
| `SchedulingOrder.FirstComeFirstWoken` | NachOS-4.0/code/threads/synch.cc:76-117 | the threads woken from a semaphore's queue are, in order, the first ones that joined it, and the queue holds the rest |
| `SchedulingOrder.WokenIsReadied` | NachOS-4.0/code/threads/synch.cc:103-117 | a thread leaves the queue only by going behind all that are ready |
| `SchedulingOrder.FirstReadyFirstRun` | NachOS-4.0/code/threads/scheduler.cc:57-84 | the threads dispatched are, in order, the first ones that became ready, and the ready list holds the rest |
| `SchedulingOrder.DispatchedRuns` | NachOS-4.0/code/threads/scheduler.cc:104-150 | a thread leaves the ready list only to run |
| `SchedulingOrder.YieldGivesWay` | NachOS-4.0/code/threads/thread.cc:206-221 | Yield gives way whenever another thread is ready, and the yielder goes behind all that are |
| `SchedulingOrder.DispatchHandsOver` | NachOS-4.0/code/threads/thread.cc:244-259 | a sleeping CPU goes to the first ready thread |
| `SchedulingOrder.PSleepsAtZero` | NachOS-4.0/code/threads/synch.cc:76-92 | P sleeps exactly at value 0, and then the caller is last in the queue |
| `SchedulingOrder.ForkIsReady` | NachOS-4.0/code/threads/thread.cc:95-109 | a forked thread is behind all that are ready |
| `SchedulingOrder.NewSemStarts` | NachOS-4.0/code/threads/synch.cc:47-52 | a new semaphore has its initial value and an empty queue |
| `SchedulingOrder.CallsArePossible` | NachOS-4.0/code/threads/synch.cc:76-117 | a running thread can make every call, a handler can call V also while the CPU idles, and a sleeping CPU does nothing else but dispatch |
| `SynchLists.NextKeepsInv` | NachOS-4.0/code/threads/synch.cc:244-283 | every step of producers and consumers keeps the monitor invariant |
| `SynchLists.RunInv` | NachOS-4.0/code/threads/synchlist.cc:53-81 | it holds in every state of every run |
| `SynchLists.RemovedIsPrefix` | NachOS-4.0/code/threads/synchlist.cc:53-81 | the removed items are exactly a prefix of the append order, and the list holds the rest |
| `SynchLists.NoItemLeftBehind` | NachOS-4.0/code/threads/synchlist.cc:53-81 | while consumers wait, items never exceed signalled waiters plus an append not yet signalled |
| `SynchLists.MutualExclusion` | NachOS-4.0/code/threads/synch.cc:181-203 | at most one thread is between Acquire and Release |
| `SynchLists.SignalReachesWaiter` | NachOS-4.0/code/threads/synch.cc:244-283 | a waiter's semaphore is posted exactly when Signal took it off the queue |
| `SynchLists.AppendNeverFails` | NachOS-4.0/code/lib/list.cc:75-89 | the item to append is never in the list already |
| `SynchListRuns.AppendsAsked` | NachOS-4.0/code/threads/synchlist.cc:53-60 | an append puts the item of its thread's call behind all others |
| `SynchListRuns.ReturnsOldest` | NachOS-4.0/code/threads/synchlist.cc:71-81 | a removal returns exactly the oldest item that nobody has been given |
| `SynchListRuns.OthersLeaveList` | NachOS-4.0/code/threads/synchlist.cc:53-81 | no other step changes the list |
| `SynchListRuns.FirstWaitingFirstSignalled` | NachOS-4.0/code/threads/synch.cc:244-283 | consumers are signalled in the order in which they began to wait |
| `SynchListRuns.WaiterGoesOn` | NachOS-4.0/code/threads/synch.cc:244-283 | a waiting consumer can go on if and only if it was signalled |
| `SynchListRuns.CallsArePossible` | NachOS-4.0/code/threads/synchlist.cc:53-81 | an idle thread can call Append and RemoveFront at any time |
| `SynchListRuns.NeverStuck` | NachOS-4.0/code/threads/synchlist.cc:53-81 | if no call can go on, the lock is free, every other thread is idle, and consumers wait only for an empty list |
| `SynchDisks.NextKeepsInv` | NachOS-4.0/code/filesys/synchdisk.cc:58-94 | every step of threads and disk keeps the invariant |
| `SynchDisks.RunInv` | NachOS-4.0/code/filesys/synchdisk.cc:58-94 | it holds in every state of every run |
| `SynchDisks.OneRequestAtATime` | NachOS-4.0/code/machine/disk.cc:114-151 | no request is issued while one is outstanding |
| `SynchDisks.ReplayIsLastWrite` | NachOS-4.0/code/machine/disk.cc:114-163 | after any sequence of requests a sector holds the data of the last write to it |
| `SynchDisks.ReadsSeeLastWrite` | NachOS-4.0/code/filesys/synchdisk.cc:58-82 | ReadSector returns the data of the last WriteSector to that sector in lock order |
| `SynchDisks.InterruptIsForHolder` | NachOS-4.0/code/filesys/synchdisk.cc:91-94 | each interrupt is for the thread that holds the lock, and wakes it exactly once |
| `SynchDisks.IssuesAsked` | NachOS-4.0/code/filesys/synchdisk.cc:58-82 | the disk is handed exactly the request of the thread's call; a write replaces that sector, a read nothing |
| `SynchDisks.OthersLeaveDisk` | NachOS-4.0/code/filesys/synchdisk.cc:58-94 | no other step changes the disk |
| `SynchDisks.TurnWithinCall` | NachOS-4.0/code/filesys/synchdisk.cc:58-82 | the data that a call returns are those of its own turn on the disk, taken since it began |
| `SynchDisks.WaitEnds` | NachOS-4.0/code/filesys/synchdisk.cc:58-94 | a thread that waits for the disk can go on exactly when the interrupt has come, and until then it can come |
| `SynchDisks.CallsArePossible` | NachOS-4.0/code/filesys/synchdisk.cc:58-82 | an idle thread can ask for any sector at any time |
| `SynchDisks.NeverStuck` | NachOS-4.0/code/filesys/synchdisk.cc:58-94 | where only a new call can begin, every call has returned |
| `ProcessTable.NextKeepsInv` | NachOS-4.0/code/threads/ptable.cc:43-183 | every step of Exec, Join and Exit keeps the invariant |
| `ProcessTable.RunInv` | NachOS-4.0/code/threads/ptable.cc:43-183 | it holds in every state of every run |
| `ProcessTable.JoinReturnsExitCode` | NachOS-4.0/code/threads/ptable.cc:130-162 | a Join that was let in returns exactly the code that the child passed to Exit; which Join is let in is told by ProcessHistory.JoinAnswers |
| `ProcessTable.DeletedAfterRelease` | NachOS-4.0/code/threads/ptable.cc:97-128 | a child clears its slot and deletes its PCB only after the parent has read the code and released it |
| `ProcessTable.ParentGoesOn` | NachOS-4.0/code/threads/ptable.cc:130-162 | a joining parent is held up only in JoinWait, and exactly while its child has not come to ExitWait; so the two are never both stuck |
| `ProcessTable.ChildGoesOn` | NachOS-4.0/code/threads/ptable.cc:97-128 | a child in ExitWait goes on exactly when its parent has released it |
| `ProcessTable.NoDanglingPcb` | NachOS-4.0/code/threads/ptable.cc:164-183 | slots are never shared, a marked slot leads to a live PCB, and no join follows a dead one |
| `ProcessHistory.JoinAnswers` | NachOS-4.0/code/threads/ptable.cc:130-151 | a Join is answered -1 if and only if the slot does not hold a live child of the caller; otherwise the caller waits for it, whatever the child has done so far |
| `ProcessHistory.JoinIsPossible` | NachOS-4.0/code/threads/ptable.cc:130-151 | and every first Join is possible at once |
| `ProcessHistory.JoinReturnsExitArgument` | NachOS-4.0/code/threads/ptable.cc:130-162 | what a Join returns is the argument of an earlier Exit by that process, which an earlier Exec of the caller had started |
| `ProcessHistory.ExitsOnce` | NachOS-4.0/code/threads/ptable.cc:97-128 | a process exits once, so there is only one such argument |
| `ProcessHistory.DeletedAfterJoin` | NachOS-4.0/code/threads/ptable.cc:97-128 | a process is deleted only after a Join on it has returned |
| `ProcessHistory.ExecTakesLowest` | NachOS-4.0/code/threads/ptable.cc:72-92 | Exec gives the lowest slot that no live process has, and -1 exactly when all ten have one |
| `ProcessHistory.ExecIsPossible` | NachOS-4.0/code/threads/ptable.cc:72-92 | a running process can always call Exec, with a slot exactly if one of the ten is free |
| `ProcessHistory.ExitIsPossible` | NachOS-4.0/code/threads/ptable.cc:97-128 | a child that exits gets to ExitWait by itself, and away once it was released |
| `PostOffice.WireRoundTrip` | NachOS-4.0/code/network/post.cc:301-330 | whatever fills the packet up, it is opened as the mail that was sent |
| `DiskFormat.PacketBytes` | NachOS-4.0/code/machine/network.cc:159-182 | a packet has 64 bytes: receiver, sender and length, then the same of the mail, then the data |
| `PostOffice.NextKeepsInv` | NachOS-4.0/code/network/post.cc:192-344 | every step of senders, workers, interrupts and network keeps the invariant |
| `PostOffice.RunInv` | NachOS-4.0/code/network/post.cc:192-344 | it holds in every state of every run |
| `PostOffice.MailInOrder` | NachOS-4.0/code/network/post.cc:192-217 | mail in a box from a host is, in order and unchanged, a subsequence of what that host sent to that host and box |
| `PostOffice.ReceiveKeepsStream` | NachOS-4.0/code/machine/network.cc:61-103 | polling, receiving and delivering move mail along without changing the stream of received mail |
| `PostOffice.BufferHeld` | NachOS-4.0/code/machine/network.cc:61-103 | whatever threads, interrupts and hosts do, a buffered packet stays as it is until the worker's next Receive |
| `PostOffice.BufferNeverOverwritten` | NachOS-4.0/code/machine/network.cc:61-103 | that Receive hands over exactly the header and data that the poll split off |
| `PostOffice.WorkerFindsPacket` | NachOS-4.0/code/machine/network.cc:94-103 | exactly one token stands for a buffered packet, so the worker never receives an empty header, and its assertions hold |
| `PostOffice.OnePacketAtATime` | NachOS-4.0/code/machine/network.cc:159-182 | no packet is sent while the interrupt of the last one is outstanding |
| `PostOfficeRuns.WireExact` | NachOS-4.0/code/machine/network.cc:61-182 | in every run, what a host has sent and what has reached it are fixed by the calls of Send and by which packets are lost: exactly the mail for it that was not lost, in the order in which it went out |
| `PostOfficeRuns.OneSent` | NachOS-4.0/code/network/post.cc:301-330 | a packet carries the mail of its thread's last call, to the host that it names and to no other |
| `PostOfficeRuns.UsersGetArrivals` | NachOS-4.0/code/network/post.cc:192-217 | a box with what was taken out of it is exactly its part of a first stretch of the arrivals |
| `PostOfficeRuns.GetIsOldest` | NachOS-4.0/code/network/post.cc:121-137 | Get hands over the oldest mail for the box that nobody has got |
| `PostOfficeRuns.GetIsPossible` | NachOS-4.0/code/network/post.cc:121-137 | a user can get mail from a box exactly if there is some |
| `PostOfficeRuns.SendIsPossible` | NachOS-4.0/code/network/post.cc:301-330 | an idle thread can send up to 40 bytes to any box at any time |
| `PostOfficeRuns.WorkerGoesOn` | NachOS-4.0/code/network/post.cc:192-217 | the postal worker can go on exactly if a packet is buffered or in its hand |
| `PostOfficeRuns.PollGoesOn` | NachOS-4.0/code/machine/network.cc:61-92 | a poll takes a packet exactly if there is one and the buffer is free |
| `PostOfficeRuns.AllDelivered` | NachOS-4.0/code/network/post.cc:192-217 | where nothing more happens by itself, every Send has returned, and each box has got all mail for it that was not lost |
| `Multiplier.Mult` | NachOS-4.0/code/machine/mipssim.cc:773-829 | hi:lo is the exact 64-bit product of all operands, signed and unsigned |
| `Multiplier.MultiplyWords` | NachOS-4.0/code/machine/mipssim.cc:794-815 | the main loop, with its early break and its arithmetic shifts, computes the unsigned product |
| `Multiplier.RoundStep` | NachOS-4.0/code/machine/mipssim.cc:800-815 | one round keeps: partial sum plus remaining bits times shifted operand is the product |
| `Multiplier.AddPair` | NachOS-4.0/code/machine/mipssim.cc:802-805 | adds double words with the carry taken from the wrapped low word |
| `Multiplier.ShiftPair` | NachOS-4.0/code/machine/mipssim.cc:809-813 | doubles the double word across the word border |
| `Multiplier.NegatePair` | NachOS-4.0/code/machine/mipssim.cc:819-825 | two's complement of the double word |
| `UnalignedAccess.LoadLeftBytes` | NachOS-4.0/code/machine/mipssim.cc:313-363 | which bytes LWL takes from memory and which from the register |
| `UnalignedAccess.LoadRightBytes` | NachOS-4.0/code/machine/mipssim.cc:365-419 | the same for LWR |
| `UnalignedAccess.StoreLeftBytes` | NachOS-4.0/code/machine/mipssim.cc:553-610 | which bytes of the word SWL replaces |
| `UnalignedAccess.StoreRightBytes` | NachOS-4.0/code/machine/mipssim.cc:612-670 | the same for SWR |
| `UnalignedAccess.Machine.LWL` | NachOS-4.0/code/machine/mipssim.cc:313-363 | the new registers: the merged value is pending, the earlier load has landed |
| `UnalignedAccess.Machine.LWR` | NachOS-4.0/code/machine/mipssim.cc:365-419 | the same for LWR |
| `UnalignedAccess.Machine.SWL` | NachOS-4.0/code/machine/mipssim.cc:553-610 | the new memory and registers |
| `UnalignedAccess.Machine.SWR` | NachOS-4.0/code/machine/mipssim.cc:612-670 | the new memory and registers |
| `UnalignedAccess.Machine.DelayedLoad` | NachOS-4.0/code/machine/mipssim.cc:713-719 | the pending load lands, the next becomes pending, register 0 stays 0 |
| `UnalignedAccess.MergedLoad` | NachOS-4.0/code/machine/mipssim.cc:313-419 | the two merges give the unaligned word whatever the register held |
| `UnalignedAccess.UnalignedLoad` | NachOS-4.0/code/machine/mipssim.cc:313-419 | LWR at a and LWL at a + 3 load the four bytes from a, interrupted between or not; no other register is affected |
| `UnalignedAccess.UnalignedStore` | NachOS-4.0/code/machine/mipssim.cc:553-670 | SWR at a and SWL at a + 3 change exactly the four bytes from a; they are the bytes of rt if and only if a pending load of rt leaves the part that the second store writes alone |
| `UnalignedAccess.SecondAddress` | NachOS-4.0/code/machine/mipssim.cc:313-719 | the two instructions compute addresses three apart if and only if no pending load changes their base register |
| `UnalignedAccess.PendingLoadShows` | NachOS-4.0/code/machine/mipssim.cc:553-719 | a store pair that does not store what its register holds |
| `UnalignedAccess.StoreThenLoad` | NachOS-4.0/code/machine/mipssim.cc:313-719 | SWR and SWL of rt, then LWR and LWL of rd, interrupted anywhere: the addresses are right if and only if no pending load changes the base, and rd gets rt's value if and only if no pending load changes the part of rt that the second store writes |
| `Interrupts.InsertOrdered` | NachOS-4.0/code/machine/interrupt.cc:257-266 | scheduling keeps the queue in due order, ties in order of scheduling |
| `Interrupts.Interrupt.Schedule` | NachOS-4.0/code/machine/interrupt.cc:257-266 | the interrupt is queued behind all that are due no later |
| `Interrupts.Interrupt.FireDue` | NachOS-4.0/code/machine/interrupt.cc:313-320 | the loop ends; exactly the due interrupts have run, in order; the queue is the others together with what their handlers scheduled; nothing due is left |
| `Interrupts.Interrupt.CheckIfDue` | NachOS-4.0/code/machine/interrupt.cc:281-322 | the same, after advancing the clock to the next interrupt if asked to |
| `Interrupts.Interrupt.OneTick` | NachOS-4.0/code/machine/interrupt.cc:148-176 | time advances by the tick of the mode and is booked on the counter of that mode, what is due fires, and the result says whether a handler asked for a context switch |
| `Interrupts.Interrupt.SetLevel` | NachOS-4.0/code/machine/interrupt.cc:124-136 | a tick, booked on the counter of the mode, exactly when interrupts go from off to on; otherwise nothing changes |
| `Interrupts.Interrupt.Idle` | NachOS-4.0/code/machine/interrupt.cc:208-227 | time skips to the next interrupt, which fires exactly on time; with none pending the machine halts |
| `Interrupts.RanNext` | NachOS-4.0/code/machine/interrupt.cc:313-320 | firing one more interrupt extends what a batch has done by exactly that handler's effects |
| `Interrupts.NoneLost` | NachOS-4.0/code/machine/interrupt.cc:257-322 | every interrupt ever scheduled is accounted for exactly once: it waits if and only if it is not due; else its handler ran once, not early and at most SystemTick - 1 late |
| `Interrupts.RanDueHeard` | NachOS-4.0/code/machine/interrupt.cc:313-320 | a handler that has run has had all its requests scheduled, counted from the time at which it ran |
| `Interrupts.YieldOwed` | NachOS-4.0/code/machine/interrupt.cc:148-176 | a context switch is owed only if a handler that ran asked for it, and always if one did |
| `Interrupts.Simulate` | NachOS-4.0/code/machine/interrupt.cc:124-322 | over any run: total = idle + system + user ticks, system ticks are 10 for each kernel tick done and user ticks 1 for each user tick, time never goes back, every request of a device or of a handler is on the books for its own time, and every interrupt ever scheduled waits or has run, on time, in due order, exactly once |
| `DiskTiming.NextPass` | NachOS-4.0/code/machine/disk.cc:200-206 | from a sector boundary, ModuloDiff sectors later is the first time the sector comes under the head |
| `DiskTiming.BufferTest` | NachOS-4.0/code/machine/disk.cc:238-244 | the comparison grants a buffer hit exactly if the sector has passed completely since bufferInit |
| `DiskTiming.Disk.TimeToSeek` | NachOS-4.0/code/machine/disk.cc:177-191 | the seek time, and the rest of the way to the next sector boundary |
| `DiskTiming.Disk.ComputeLatency` | NachOS-4.0/code/machine/disk.cc:230-250 | a buffer hit takes one rotation time; any other request starts at the first pass of the sector after the seek; 500 to 31999 ticks |
| `DiskTiming.Disk.UpdateLast` | NachOS-4.0/code/machine/disk.cc:259-268 | bufferInit is always the first boundary after the head reached its track |
| `DiskTiming.Disk.Request` | NachOS-4.0/code/machine/disk.cc:114-151 | the scheduled delay is the one promised; the head is where the request was, and the buffer starts anew exactly if the head moved |
| `DiskTiming.Serve` | NachOS-4.0/code/machine/disk.cc:114-268 | any sequence of requests: each latency is right, told from the times and sectors of the earlier requests alone |
| `DiskTiming.ReachedAtLastSeek` | NachOS-4.0/code/machine/disk.cc:259-268 | the buffer counts from the end of the last seek |
| `DiskTiming.NoStaleBuffer` | NachOS-4.0/code/machine/disk.cc:230-268 | a read just after a seek that must wait, and is not answered from the buffer |
| `AddressSpaces.TranslatedInMemory` | NachOS-4.0/code/machine/translate.cc:236-250 | Translate's assertion holds for every table, and an access never leaves its frame |
| `AddressSpaces.Kernel.Translate` | NachOS-4.0/code/machine/translate.cc:185-251 | the exception or the physical address, and the use and dirty bits, for every table and address |
| `AddressSpaces.FaultsExact` | NachOS-4.0/code/machine/translate.cc:185-251 | when exactly each exception is raised, and where an access goes that raises none |
| `AddressSpaces.BitsAfter` | NachOS-4.0/code/machine/translate.cc:244-246 | a translation sets the page's use bit, a write its dirty bit too, and nothing else changes |
| `AddressSpaces.DirtyExact` | NachOS-4.0/code/machine/translate.cc:244-246 | after any accesses a page is dirty if and only if it was before or was written to, and in use likewise |
| `AddressSpaces.Kernel.ReadMem` | NachOS-4.0/code/machine/translate.cc:86-120 | the value at the translated address, or the exception |
| `AddressSpaces.Kernel.WriteMem` | NachOS-4.0/code/machine/translate.cc:136-167 | exactly the translated bytes change, or nothing and the exception |
| `AddressSpaces.WrittenThenRead` | NachOS-4.0/code/machine/translate.cc:86-167 | a word is read back as written, a half word unsigned, a byte signed |
| `AddressSpaces.AddrSpace.constructor` | NachOS-4.0/code/userprog/addrspace.cc:84-119 | takes the lowest free frames, one for each page, or none when there are too few; every page is valid, writable, not used and not dirty |
| `AddressSpaces.Kernel.NewSpace` | NachOS-4.0/code/userprog/addrspace.cc:84-119 | live spaces keep disjoint, injectively mapped frames, and the frame map marks exactly those |
| `AddressSpaces.Kernel.DestroySpace` | NachOS-4.0/code/userprog/addrspace.cc:147-154 | exactly that space's frames become free, and the others keep theirs |
| `AddressSpaces.NewSpaceKeepsOwners` | NachOS-4.0/code/userprog/addrspace.cc:108-116 | a space on frames that were free keeps the ownership |
| `AddressSpaces.DeadSpaceKeepsOwners` | NachOS-4.0/code/userprog/addrspace.cc:147-154 | a space that goes leaves the others theirs |
| `AddressSpaces.SpaceTranslates` | NachOS-4.0/code/machine/translate.cc:185-251 | in a space's table only a misaligned address or one beyond its end faults |
| `AddressSpaces.WriteChangesView` | NachOS-4.0/code/machine/translate.cc:136-167 | a write through one space changes exactly the named bytes of its flat memory and nothing in any other space |
| `AddressSpaces.Kernel.UserRead` | NachOS-4.0/code/machine/translate.cc:86-120 | a load reads the space's own flat memory, or is an address error |
| `AddressSpaces.Kernel.UserWrite` | NachOS-4.0/code/machine/translate.cc:136-167 | a store changes the space's own flat memory exactly there, and no other space sees it |
| `Lists.List.Append` | NachOS-4.0/code/lib/list.cc:75-89 | the item goes behind all others; first still leads to last and the count is right |
| `Lists.List.Prepend` | NachOS-4.0/code/lib/list.cc:98-112 | the item goes in front of all others |
| `Lists.List.RemoveFront` | NachOS-4.0/code/lib/list.cc:125-142 | returns and removes the first item, also the only one |
| `Lists.List.Remove` | NachOS-4.0/code/lib/list.cc:151-178 | deletes exactly the first occurrence, also when it is the last element |
| `Lists.List.IsInList` | NachOS-4.0/code/lib/list.cc:187-197 | tells exactly whether the item is in the list |
| `Lists.List.Insert` | NachOS-4.0/code/lib/list.cc:234-260 | the linked list changes as sorted insertion on the sequence of items |
| `Lists.RemovedIsGone` | NachOS-4.0/code/lib/list.cc:151-178 | among distinct items, Remove takes out that item and nothing else, so that its last assertion holds |
| `Lists.SortedInsertKeepsOrder` | NachOS-4.0/code/lib/list.cc:234-260 | insertion keeps the order and is stable: the new item goes behind all that compare equal |
| `HashTables.HashTable.constructor` | NachOS-4.0/code/lib/hash.cc:29-35 | an empty table of four buckets is the empty map |
| `HashTables.HashTable.Insert` | NachOS-4.0/code/lib/hash.cc:110-124 | the map gains exactly that key; the table grows fourfold exactly if it held three items for each bucket |
| `HashTables.HashTable.ReHash` | NachOS-4.0/code/lib/hash.cc:136-153 | the table is four times the size, and the map is the same |
| `HashTables.HashTable.Find` | NachOS-4.0/code/lib/hash.cc:193-198 | answers from the map |
| `HashTables.HashTable.Remove` | NachOS-4.0/code/lib/hash.cc:210-223 | the map loses exactly that key, and its item is returned |
| `HashTables.AddedRepresents` | NachOS-4.0/code/lib/hash.cc:120-121 | an item with a new key, appended to the bucket that its key hashes to, adds exactly that key |
| `HashTables.DroppedRepresents` | NachOS-4.0/code/lib/hash.cc:218-219 | an item taken out of its bucket removes exactly its key |
| `HashTables.RepresentsOneMap` | NachOS-4.0/code/lib/hash.cc:270-288 | the buckets determine the map |
| `HashTables.HashIterator.constructor` | NachOS-4.0/code/lib/hash.cc:332-340 | starts with all items ahead, in bucket order |
| `HashTables.HashIterator.Next` | NachOS-4.0/code/lib/hash.cc:349-360 | steps over exactly one item, across empty buckets |
| `HashTables.FindNextFullBucket` | NachOS-4.0/code/lib/hash.cc:251-259 | the next bucket that is not empty, with only empty ones between |
| `HashTables.FlattenIsContents` | NachOS-4.0/code/lib/hash.cc:270-288 | in bucket order, the items are the map's items, each exactly once |
| `HashTables.Traverse` | NachOS-4.0/code/lib/hash.cc:332-360 | the iterator visits each item of the table exactly once |
| `DecimalNumbers.Console.PrintNum` | NachOS-4.0/code/userprog/exception.cc:307-369 | prints the decimal numeral, except that the most negative number loses its digits; all writes stay within the buffer |
| `DecimalNumbers.PrintedUsual` | NachOS-4.0/code/userprog/exception.cc:307-369 | what is printed are digits that stand for the number, without needless zeros, behind a minus exactly if it is negative |
| `DecimalNumbers.Console.ReadNum` | NachOS-4.0/code/userprog/exception.cc:204-306 | the answer to every line, and what is left unread: the whole line is taken if and only if no character 255 stands behind the one on which the reader gives up |
| `DecimalNumbers.Console.ClearInputBuffer` | NachOS-4.0/code/userprog/exception.cc:76-80 | reads to the end of the line or to a character that compares equal to EOF |
| `DecimalNumbers.UnreadExact` | NachOS-4.0/code/userprog/exception.cc:204-306 | exactly when a whole line is taken |
| `DecimalNumbers.LineLeftBehind` | NachOS-4.0/code/userprog/exception.cc:76-80 | a line that is not taken as a whole |
| `DecimalNumbers.NumbersTakeTheirLine` | NachOS-4.0/code/userprog/exception.cc:204-306 | a line with a number in it always is |
| `DecimalNumbers.PrintThenRead` | NachOS-4.0/code/userprog/exception.cc:204-369 | what is printed is read back as the same number if and only if it is not the most negative one |
| `DecimalNumbers.ParseNumeral` | NachOS-4.0/code/userprog/exception.cc:204-306 | a numeral with blanks around it is understood as its number |
| `DecimalNumbers.AnswerNumeral` | NachOS-4.0/code/userprog/exception.cc:204-306 | a 32-bit number typed in is answered as itself if and only if it is not the most negative one |
| `DecimalNumbers.SpelledIsParsed` | NachOS-4.0/code/userprog/exception.cc:204-306 | a line of blanks, an optional minus, digits and blanks is read as the number of its digits |
| `DecimalNumbers.ParsedIsSpelled` | NachOS-4.0/code/userprog/exception.cc:204-306 | and only such a line is read as a number |
| `DecimalNumbers.AnswerNoNumber` | NachOS-4.0/code/userprog/exception.cc:204-306 | every other line is answered 0 |
| `DecimalNumbers.NoNumbers` | NachOS-4.0/code/userprog/exception.cc:204-306 | such as letters, nothing at all, or a minus alone |
| `DecimalNumbers.LeadingZero` | NachOS-4.0/code/userprog/exception.cc:204-306 | leading zeros do not count |
| `DecimalNumbers.MostNegativeRejected` | NachOS-4.0/code/userprog/exception.cc:53-54 | the line -2147483648 is answered 0, because the reader's own lower limit is -2147483647 |
| `DecimalNumbers.PrintNewlineRead` | NachOS-4.0/code/userprog/exception.cc:204-369 | the same through the console |
| `DecimalNumbers.AnswerOutOfRange` | NachOS-4.0/code/userprog/exception.cc:270-290 | a numeral out of the reader's range is answered 0 if and only if its 64-bit remainder is out of that range or 0 |
| `DecimalNumbers.OutOfRangeAccepted` | NachOS-4.0/code/userprog/exception.cc:270-290 | 2 to the power 64 plus 1 is taken for 1 |
| `WaterTaps.ServeQueue` | NachOS-4.0/code/test/watertap.c:23-74 | each student goes to the tap that has given less; the taps differ by at most the largest volume; twice the busier tap is at most three times that of any other choice |
| `WaterTaps.ServedExact` | NachOS-4.0/code/test/watertap.c:35-75 | exactly the students up to the first one with a star are served, except those who ask for nothing |
| `WaterTaps.ReadVolume` | NachOS-4.0/code/test/watertap.c:35-52 | what the accumulation makes of any characters before the star, which for digits is their number, and whether there is a star |
| `WaterTaps.TapsStayClose` | NachOS-4.0/code/test/watertap.c:53-63 | after any greedy choice the taps differ by at most the largest volume served |
| `WaterTaps.GreedyIsNearBest` | NachOS-4.0/code/test/watertap.c:53-63 | at most one and a half times the busier tap of any assignment |
| `WaterTaps.BoundIsTight` | NachOS-4.0/code/test/watertap.c:53-63 | the factor is reached by volumes 1, 1, 2 |

## Left out

- Host files, sockets, the console device, debug output and the FILESYS_STUB classes: calls into the host. What is left of them is a sector array, a lossy link that keeps order, and a console as two strings.
- Assembly: SWITCH, StackAllocate and the saving of registers. A switch changes the current thread.
- Files larger than MaxFileSize and negative positions or sizes: the source checks neither, so they are preconditions.
- OpenFiles.OpenFile.ReadAt: not modelled when position + numBytes overflows before the end of the file, which `OpenFiles.CutExact` makes exact; the source then goes on past the file's sectors and the buffer, where nothing is promised.
- OpenFiles.OpenFile.WriteAt: the same, and so for FileSystemRuns.Execute and FileSystemRuns.Session.
- Padding bytes inside a stored DirectoryEntry: written as zeros; the source writes whatever they held.
- The table of open files and the extra Open with a type that this NachOS adds for user programs: thin dispatch.
- The bytes of a new file: Create leaves what its sectors held, and so does the model.
- Condition::Broadcast, and Lock's assertion that the releasing thread holds it outside the monitor of SynchList.
- A second Join on the same child, a parent that exits before its child, and PCB::numwait: the handshake is not made for them.
- Multiplier.Mult: the operands are the registers' values; the instruction decoding around it is not modelled.
- UnalignedAccess.UnalignedLoad: program counter updates and address exceptions are not modelled; addresses are inside a flat memory.
- Interrupts.Interrupt.OneTick: returns the wish to yield instead of calling Yield. Handlers are a parameter: any function that schedules strictly later.
- PostOffice.OnePacketAtATime: sendBusy is tested but never set in the source, so its own assertion says nothing; the model proves what it was meant to say. Senders address existing mailboxes, as PostalDelivery asserts.
- AddressSpaces.AddrSpace.constructor: when there are too few frames, the source also releases addrLock twice and deletes the executable twice; only the empty page table is modelled. Copying the segments in, AddrSpace::Load and the TLB are not modelled.
- AddressSpaces.Kernel.ReadMem: returns the exception instead of raising it.
- Pointer equality between lists: HashTables takes a bucket as the sequence of its items, which module Lists proves the linked list to act on.
- Memory exhaustion, and 32-bit overflow of tick counters, of volumes in the water program and of the counts in containers.
- DecimalNumbers.Console.ReadNum: the input holds the end of the line; the source waits for it. The end of the console's file is not modelled, only the character that compares equal to EOF. Overflow of its 64-bit variable, and negation of the most negative int, wrap around as on the machine.
- STable, named semaphores for user programs: a table of names over the semaphores modelled here. SynchConsole, locked access to the console: PutChar and Write take different locks, so it has no exclusion law to prove.
- The other system calls (argument copying and dispatch), the other MIPS instructions (one case each), the debugger, coff2noff, start-up and statistics.
