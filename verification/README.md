# A verified model of the Nachos 3.4 kernel

Nachos is a teaching kernel that runs on a simulated MIPS machine. This project models the
parts of it that carry state and protocols, and proves what they keep:

- **File system** (`Words`, `BitMap`, `Ownership`, `Layout`, `FileHeader`, `OpenFile`,
  `Directory`, `Volume`, `Accounting`, `FileSystem`, `Handles`; `DiskGeometry` and `Collections`
  hold what is shared). A disk of 1024 sectors of 512 bytes whose
  free-sector bitmap and directory are files on that same disk. The invariant is an exact
  partition: every marked sector has exactly one owner. Every run of operations, with files held
  open across them, refines the same run on a map from names to bytes.
- **Threads and semaphores** (`Threads`). A step relation over any number of threads on one
  processor, with wakeups that can be overtaken. No wakeup is lost, each thread is in one
  place, dispatch is first come first served.
- **Simulated hardware** (`Multiplier`, `Mips`, `Machine`, `Instructions`, `Restart`, `List`, `Interrupt`,
  `DiskTiming`, `Memory`). The multiplier, the interpreter with precise exceptions, what each
  instruction means and how it is encoded, when instructions can be
  begun again or interrupted, the event queue on a linked list, rotation and track-buffer timing, address translation and frame ownership.
- **Processes and console** (`Processes`, `Console`). The handshake of Exec, Join and Exit, and
  whole lines from concurrent writers over an asynchronous device.
- **Water taps** (`WaterTaps`). Three user programs that hand one turn around, and the greedy
  rule by which two taps are shared.

Objects that the kernel updates in place are classes, arrays and loops here, each method proved
against a function of its inputs or of the old state. Protocols between threads or processes are
step relations on values; their theorems are about every state of every run.

Where comments and code of the kernel disagree the model follows the code:

- a file may have 126 data sectors (64512 bytes), not "just under 4K" (filesys/filehdr.h) or
  "about 3KB" (filesys/filesys.cc);
- `OR` combines rs with itself and `SRL`/`SRLV` copy the sign in (machine/mipssim.cc).

Some promises do not hold of the code everywhere. For each the exact condition is proved, and a case
where it fails:

- `ReadAt` and `WriteAt` clip a request to the file if and only if position + numBytes does not
  overflow an int (`ClippingIsExact`, `HugeRequestEscapesClipping`);
- a file held open after its name was removed is harmless if and only if none of its sectors has
  become the header of another file (`StaleWriteIsSafeIff`), which the kernel does not prevent
  (`StaleHandle`), and the write that does the harm goes through (`StaleWrite`);
- `Allocate` stays inside its sector table if and only if the size is at most MaxFileSize or larger
  than what is free (`SizeFitsIff`);
- an interrupt between two instructions goes unnoticed by the program if and only if the second is
  not sensitive to the load that the first left pending (`InterruptIsInvisibleIff`,
  `InterruptGoesWrong`), and over a whole run if that holds wherever one comes
  (`InterruptsAreInvisible`);
- an instruction can be begun again after a trap under the same condition (`RestartIsSafeIff`), and
  would go wrong after a page fault in a load delay slot (`RestartGoesWrong`). This kernel never
  begins one again: every fault stops the machine (userprog/exception.cc:673-701).

`dafny verify dfyconfig.toml` checks all of it.

## Model

| member | source | states |
|---|---|---|
| `Handles.Session.Run` | HDH/nachos/nachos/nachos-3.4/code/filesys/filesys.cc:181-317 | Any run of Create, Remove, Open, and reads and writes through files held open across the others, removed files included, refines the same run on a plain map from names (first 9 characters) to byte strings: every result, byte count, byte read and state in between is one the map gives, and the disk invariant holds throughout |
| `Handles.Session.Perform` | HDH/nachos/nachos/nachos-3.4/code/filesys/filesys.cc:181-317 | One such operation, with its result and byte count, is one step on the map and keeps what is known of every handle |
| `Handles.Session.Create` | HDH/nachos/nachos/nachos-3.4/code/filesys/filesys.cc:181-222 | Creating a file is a step on the map, fresh sectors included, and every file held open still stands for its file |
| `Handles.Session.Remove` | HDH/nachos/nachos/nachos-3.4/code/filesys/filesys.cc:286-317 | Removing a file is a step on the map; exactly the files held open under that name stop being live |
| `Handles.Session.Open` | HDH/nachos/nachos/nachos-3.4/code/filesys/filesys.cc:236-250 | Opening succeeds exactly for names in the map and adds a handle with the length and the data sectors of that file |
| `Handles.Session.Write` | HDH/nachos/nachos/nachos-3.4/code/filesys/openfile.cc:154-194 | A write through a handle opened earlier, with any operations in between, returns the clipped count and changes exactly the clipped range of the file it was opened for; if that file was removed, only files that now own one of its sectors change, and no length does |
| `Handles.Session.Read` | HDH/nachos/nachos/nachos-3.4/code/filesys/openfile.cc:124-152 | A read through such a handle returns the clipped count and exactly the clipped range of that file as it is now |
| `Handles.CreateKeeps` | HDH/nachos/nachos/nachos-3.4/code/filesys/filesys.cc:181-222 | A handle stands for its file after any Create |
| `Handles.RemoveKeeps` | HDH/nachos/nachos/nachos-3.4/code/filesys/filesys.cc:286-317 | A handle stands for its file after a Remove of any other name |
| `Handles.WriteKeeps` | HDH/nachos/nachos/nachos-3.4/code/filesys/openfile.cc:154-194 | A handle stands for its file after a write through any handle |
| `Handles.RemoveEnds` | HDH/nachos/nachos/nachos-3.4/code/filesys/filesys.cc:286-317 | After a Remove of its own name a handle with data sectors stands for no file |
| `Handles.EveryChangeIsAWrite` | HDH/nachos/nachos/nachos-3.4/code/filesys/openfile.cc:154-194 | The changes to data sectors of a handle are exactly the outcomes that WriteAt can have for some bytes, length and position |
| `Handles.StaleWriteIsSafeIff` | HDH/nachos/nachos/nachos-3.4/code/filesys/openfile.cc:154-194 | Every outcome of every WriteAt through a handle whose file is gone keeps the disk invariant, if and only if none of its sectors has become the header of another file |
| `Handles.Session.HandleIsSafeIff` | HDH/nachos/nachos/nachos-3.4/code/filesys/openfile.cc:30-35 | The same for every handle that a run of operations can leave behind |
| `Handles.StrayWrite` | HDH/nachos/nachos/nachos-3.4/code/filesys/openfile.cc:154-194 | A write through a removed file that misses all headers keeps the invariant, all names, lengths and sectors, and every file that owns none of the written sectors |
| `Handles.HeadersSeen` | HDH/nachos/nachos/nachos-3.4/code/filesys/openfile.cc:154-194 | Whether a handle misses all headers can be told from the sectors of the files alone |
| `Handles.DataWriteViews` | HDH/nachos/nachos/nachos-3.4/code/filesys/openfile.cc:154-194 | While that holds such a write leaves bitmap, directory, headers and owners alone and changes only files that own one of the written sectors |
| `Handles.FreeSectorsHitNothing` | HDH/nachos/nachos/nachos-3.4/code/filesys/openfile.cc:154-194 | Until a new file takes one of its sectors, a stale handle changes no file at all |
| `Handles.StaleHandle` | HDH/nachos/nachos/nachos-3.4/code/filesys/filesys.cc:181-317 | The bad case is reached by create, open, remove, create, create: the one data sector of the open file is then the header of the last one |
| `Handles.StaleWrite` | HDH/nachos/nachos/nachos-3.4/code/filesys/openfile.cc:154-194 | A write of one sector through that open file returns its full length and leaves a disk that breaks the invariant |
| `FileSystems.FileSystem.Create` | HDH/nachos/nachos/nachos-3.4/code/filesys/filesys.cc:181-222 | Succeeds if and only if the short name is new and both a directory slot and enough sectors are left, counted from the files alone; a failing Create leaves every byte of the disk unchanged; a successful one adds one file of that size, gives it the first clear sectors, and gives them to nobody else |
| `FileSystems.FileSystem.CreateNew` | HDH/nachos/nachos/nachos-3.4/code/filesys/filesys.cc:197-220 | Once the name is known to be new, success is equivalent to having room, and nothing reaches the disk unless header sector, slot and data sectors were all obtained |
| `FileSystems.FileSystem.FlushCreate` | HDH/nachos/nachos/nachos-3.4/code/filesys/filesys.cc:210-214 | Writing header, directory and bitmap back, in that order, yields the disk with exactly the one new file |
| `FileSystems.FileSystem.Remove` | HDH/nachos/nachos/nachos-3.4/code/filesys/filesys.cc:286-317 | Finds the file if and only if the short name is one of the files; then exactly that file goes and its sectors become free; otherwise no byte of the disk changes |
| `FileSystems.FileSystem.RemoveAt` | HDH/nachos/nachos/nachos-3.4/code/filesys/filesys.cc:301-316 | Every sector that Deallocate clears was marked, so its assertion holds, and the file is gone afterwards |
| `FileSystems.FileSystem.FlushRemove` | HDH/nachos/nachos/nachos-3.4/code/filesys/filesys.cc:311-312 | Writing bitmap and directory back removes that one file and no other |
| `FileSystems.FileSystem.Open` | HDH/nachos/nachos/nachos-3.4/code/filesys/filesys.cc:236-250 | Returns a file if and only if the short name is one of the files, and the handle then shows exactly the bytes of that file |
| `FileSystems.FileSystem.CreateThenRemove` | HDH/nachos/nachos/nachos-3.4/code/filesys/filesys.cc:181-317 | A successful Create followed by Remove of the same name restores the bitmap, the owner of every sector, and all files |
| `FileSystems.FileSystem.constructor` | HDH/nachos/nachos/nachos-3.4/code/filesys/filesys.cc:80-150 | Booting establishes the disk invariant; a formatted disk then holds exactly the two empty console files, and booting from an existing disk keeps every file with its bytes |
| `FileSystems.FileSystem.CreateConsoleFiles` | HDH/nachos/nachos/nachos-3.4/code/filesys/filesys.cc:144-149 | Creating the console files keeps all files; on an empty disk the result is exactly those two files |
| `FileSystems.Format` | HDH/nachos/nachos/nachos-3.4/code/filesys/filesys.cc:83-126 | From any disk contents, formatting establishes the sector partition with an empty directory, and both of its Allocate assertions hold |
| `FileSystems.FlushFormat` | HDH/nachos/nachos/nachos-3.4/code/filesys/filesys.cc:107-126 | The order of the write-backs of formatting leaves both headers, the bitmap and the directory readable |
| `FileSystems.FormatEffect` | HDH/nachos/nachos/nachos-3.4/code/filesys/filesys.cc:83-126 | A disk with the two system files, their sectors marked and no entry in use satisfies the invariant and holds no files |
| `FileSystems.RoomInTheBitmap` | HDH/nachos/nachos/nachos-3.4/code/filesys/filesys.cc:200-208 | Room as counted from the sizes of the files is the same as a vacant slot plus enough clear bits in the on-disk bitmap |
| `FileSystems.CreateUndone` | HDH/nachos/nachos/nachos-3.4/code/filesys/filesys.cc:181-317 | Adding a file and removing the file of that name cancel out: bitmap, owners and files are the old ones |
| `FileSystems.CreatedFiles` | HDH/nachos/nachos/nachos-3.4/code/filesys/filesys.cc:181-222 | A created file adds its name to the map and changes the bytes of no other file |
| `FileSystems.RemovedFiles` | HDH/nachos/nachos/nachos-3.4/code/filesys/filesys.cc:286-317 | A removed file takes its name out of the map and changes the bytes of no other file |
| `FileSystems.WriteDone` | HDH/nachos/nachos/nachos-3.4/code/filesys/openfile.cc:154-194 | Changing only data sectors of one file keeps the invariant, the bitmap, all owners and the bytes of all other files |
| `FileSystems.FileSystem.WriteHeld` | HDH/nachos/nachos/nachos-3.4/code/filesys/openfile.cc:154-194 | A write through a header held in memory returns the clipped count and changes exactly the clipped range of the file it stands for; every other file, the bitmap and the owners stay |
| `FileSystems.DenotesContents` | HDH/nachos/nachos/nachos-3.4/code/filesys/openfile.cc:30-35 | A header in memory with the length and data sectors of a file shows the bytes of that file |
| `FileSystems.FetchBitMap` | HDH/nachos/nachos/nachos-3.4/code/userprog/bitmap.cc:148-152 | Fetching fills the words from the bitmap file, byte for byte |
| `FileSystems.WriteBackBitMap` | HDH/nachos/nachos/nachos-3.4/code/userprog/bitmap.cc:161-165 | After writing back, reading the file as words gives the bitmap again; only sectors of that file change |
| `Volumes.CreateEffect` | HDH/nachos/nachos/nachos-3.4/code/filesys/filesys.cc:200-214 | Entering a header sector and data sectors taken from the free ones into a vacant slot keeps the exact sector partition and leaves all other slots alone |
| `Volumes.RemoveEffect` | HDH/nachos/nachos/nachos-3.4/code/filesys/filesys.cc:307-312 | Dropping a slot and clearing its sectors keeps the exact sector partition and leaves all other slots alone |
| `Volumes.WriteEffect` | HDH/nachos/nachos/nachos-3.4/code/filesys/openfile.cc:154-194 | Overwriting data sectors of one file keeps the partition and changes the contents of that slot only |
| `Volumes.SystemWriteEffect` | HDH/nachos/nachos/nachos-3.4/code/filesys/filesys.cc:212-214 | Rewriting the bitmap and directory files leaves their headers and the contents of every file alone |
| `Volumes.LookupIsMembership` | HDH/nachos/nachos/nachos-3.4/code/filesys/directory.cc:90-116 | A directory lookup finds an entry if and only if the short name is a key of the map of files |
| `Volumes.FileMapPut` | HDH/nachos/nachos/nachos-3.4/code/filesys/directory.cc:129-143 | Filling a vacant slot under a new name is a map update |
| `Volumes.FileMapDelete` | HDH/nachos/nachos/nachos-3.4/code/filesys/directory.cc:153-162 | Vacating a slot is a map deletion |
| `Accounting.FreeSectors` | HDH/nachos/nachos/nachos-3.4/code/userprog/bitmap.cc:111-119 | Under a sector partition the number of clear bits is the number of sectors minus all that the owners hold |
| `Accounting.FreeSpace` | HDH/nachos/nachos/nachos-3.4/code/userprog/bitmap.cc:111-119 | The clear bits of a sound disk are what is left of the data capacity after the footprint of its files |
| `Accounting.FileCount` | HDH/nachos/nachos/nachos-3.4/code/filesys/directory.cc:129-143 | The number of files is the number of taken slots |
| `Accounting.TakenCountFull` | HDH/nachos/nachos/nachos-3.4/code/filesys/directory.cc:129-143 | The number of taken slots is below the table size if and only if some slot is vacant |
| `Ownerships.PartitionGrow` | HDH/nachos/nachos/nachos-3.4/code/filesys/filehdr.cc:41-52 | Marking sectors that were clear and giving them to one owner keeps the exact partition |
| `Ownerships.PartitionShrink` | HDH/nachos/nachos/nachos-3.4/code/filesys/filehdr.cc:61-68 | Clearing all sectors of one owner keeps the exact partition |
| `Ownerships.PartitionDetermines` | HDH/nachos/nachos/nachos-3.4/code/userprog/bitmap.cc:94-119 | The owners determine the bitmap: two bitmaps with the same partition are equal |
| `Layout.HeaderRoundTrip` | HDH/nachos/nachos/nachos-3.4/code/filesys/filehdr.cc:77-94 | A file header written to its sector is read back unchanged |
| `Layout.EntryRoundTrip` | HDH/nachos/nachos/nachos-3.4/code/filesys/directory.h:32-39 | A directory entry survives its 20-byte image |
| `Layout.TableRoundTrip` | HDH/nachos/nachos/nachos-3.4/code/filesys/directory.cc:63-80 | The directory table survives its image on disk |
| `Layout.ContentsFrame` | HDH/nachos/nachos/nachos-3.4/code/filesys/filehdr.cc:106-110 | The bytes of a file depend on its own data sectors only |
| `FileHeaders.Disk.ReadSector` | HDH/nachos/nachos/nachos-3.4/code/machine/disk.cc:115-133 | Reading a sector fills the given place of the buffer with its bytes and changes nothing else |
| `FileHeaders.Disk.WriteSector` | HDH/nachos/nachos/nachos-3.4/code/machine/disk.cc:135-153 | Writing a sector replaces that sector of the disk and no other |
| `FileHeaders.FileHeader.Allocate` | HDH/nachos/nachos/nachos-3.4/code/filesys/filehdr.cc:41-52 | Succeeds if and only if enough bits are clear; then the data sectors are distinct, were all clear, are found one after the other by first-fit searches, and exactly they become marked; otherwise the bitmap is untouched |
| `FileHeaders.FileHeader.TakeSectors` | HDH/nachos/nachos/nachos-3.4/code/filesys/filehdr.cc:49-50 | No Find in the allocation loop fails, and each sector found is the first that is clear at that point |
| `FileHeaders.SizeFitsIff` | HDH/nachos/nachos/nachos-3.4/code/filesys/filehdr.cc:41-52 | The allocation loop stays inside the sector table if and only if the size is at most MaxFileSize or too large for the clear sectors, in which case Allocate fails |
| `FileHeaders.FileHeader.Deallocate` | HDH/nachos/nachos/nachos-3.4/code/filesys/filehdr.cc:61-68 | Exactly the data sectors become clear, each of them marked when its turn comes |
| `FileHeaders.FileHeader.FetchFrom` | HDH/nachos/nachos/nachos-3.4/code/filesys/filehdr.cc:77-81 | The header becomes what the sector encodes |
| `FileHeaders.FileHeader.WriteBack` | HDH/nachos/nachos/nachos-3.4/code/filesys/filehdr.cc:90-94 | The sector then decodes to the header, and no other sector changes |
| `FileHeaders.FileHeader.ByteToSector` | HDH/nachos/nachos/nachos-3.4/code/filesys/filehdr.cc:106-110 | Every byte below the file length lies in one of the data sectors of the file |
| `OpenFiles.OpenFile.ReadAt` | HDH/nachos/nachos/nachos-3.4/code/filesys/openfile.cc:124-152 | Returns the clipped length, puts exactly those bytes of the file into the buffer, and keeps the rest of the buffer |
| `OpenFiles.OpenFile.WriteAt` | HDH/nachos/nachos/nachos-3.4/code/filesys/openfile.cc:154-194 | For every position and length whose sum does not overflow, aligned or not: returns the clipped length, replaces exactly that range, keeps every other byte of the file, and touches no sector of anyone else |
| `OpenFiles.OpenFile.ReadRange` | HDH/nachos/nachos/nachos-3.4/code/filesys/openfile.cc:138-151 | The sector loop and the copy out of the sector buffer deliver exactly the requested bytes |
| `OpenFiles.OpenFile.WriteRange` | HDH/nachos/nachos/nachos-3.4/code/filesys/openfile.cc:169-193 | The read-modify-write of partial first and last sectors replaces exactly the requested bytes |
| `OpenFiles.OpenFile.FillBuffer` | HDH/nachos/nachos/nachos-3.4/code/filesys/openfile.cc:175-183 | Partial first and last sectors are in the buffer before the new bytes go in |
| `OpenFiles.OpenFile.WriteSectors` | HDH/nachos/nachos/nachos-3.4/code/filesys/openfile.cc:188-191 | The sector loop writes the buffer to the sectors of the range and to no others |
| `OpenFiles.OpenFile.ReadSectors` | HDH/nachos/nachos/nachos-3.4/code/filesys/openfile.cc:143-146 | The sector loop reads the sectors of the range into the buffer in order |
| `OpenFiles.OpenFile.Read` | HDH/nachos/nachos/nachos-3.4/code/filesys/openfile.cc:82-88 | Reads at the seek position and moves it on by what was read |
| `OpenFiles.OpenFile.Write` | HDH/nachos/nachos/nachos-3.4/code/filesys/openfile.cc:90-96 | Writes at the seek position and moves it on by what was written |
| `OpenFiles.OpenFile.Seek` | HDH/nachos/nachos/nachos-3.4/code/filesys/openfile.cc:63-67 | Moves the seek position and touches nothing else |
| `OpenFiles.OpenFile.constructor` | HDH/nachos/nachos/nachos-3.4/code/filesys/openfile.cc:30-35 | A file opened at a header sector shows the header stored there, at position 0 |
| `OpenFiles.ClippingIsExact` | HDH/nachos/nachos/nachos-3.4/code/filesys/openfile.cc:131-134 | The length test clips every request to the part inside the file if and only if position + numBytes does not overflow a C int |
| `OpenFiles.HugeRequestEscapesClipping` | HDH/nachos/nachos/nachos-3.4/code/filesys/openfile.cc:131-134 | A concrete request whose sum overflows is not clipped |
| `OpenFiles.WriteThenRead` | HDH/nachos/nachos/nachos-3.4/code/filesys/openfile.cc:124-194 | A read of the range just written returns the bytes just written |
| `OpenFiles.ReadModifyWrite` | HDH/nachos/nachos/nachos-3.4/code/filesys/openfile.cc:169-192 | Scattering a buffer that was gathered and then overlaid changes the file contents by exactly that overlay |
| `OpenFiles.ScatterContents` | HDH/nachos/nachos/nachos-3.4/code/filesys/openfile.cc:189-191 | Writing a run of sectors of a file whose data sectors are distinct changes exactly the bytes they stand for |
| `OpenFiles.GatherRange` | HDH/nachos/nachos/nachos-3.4/code/filesys/openfile.cc:143-149 | A buffer gathered from consecutive data sectors holds the bytes of the file in order |
| `Directories.Directory.Add` | HDH/nachos/nachos/nachos-3.4/code/filesys/directory.cc:129-143 | Succeeds if and only if no entry in use has the name and a slot is free; then the first free slot holds an entry found under that name; otherwise the table is unchanged |
| `Directories.Directory.Remove` | HDH/nachos/nachos/nachos-3.4/code/filesys/directory.cc:153-162 | Reports whether the name is there, and frees exactly the slot a lookup finds |
| `Directories.Directory.Find` | HDH/nachos/nachos/nachos-3.4/code/filesys/directory.cc:108-116 | The header sector of the first entry in use with that name, -1 if there is none |
| `Directories.Directory.FindIndex` | HDH/nachos/nachos/nachos-3.4/code/filesys/directory.cc:90-97 | The first entry in use with that name, -1 if and only if there is none |
| `Directories.Directory.FetchFrom` | HDH/nachos/nachos/nachos-3.4/code/filesys/directory.cc:63-67 | The table becomes what the directory file encodes |
| `Directories.Directory.WriteBack` | HDH/nachos/nachos/nachos-3.4/code/filesys/directory.cc:76-80 | The directory file then decodes to the table, and only its own sectors change |
| `Directories.Directory.constructor` | HDH/nachos/nachos/nachos-3.4/code/filesys/directory.cc:38-44 | A new table has no entry in use |
| `Directories.StrNCmpIsPrefixEquality` | HDH/nachos/nachos/nachos-3.4/code/filesys/directory.cc:93-95 | Comparing at most n characters of a stored name with a C string is equality of the names cut to n characters |
| `Directories.StoredNameReadsBack` | HDH/nachos/nachos/nachos-3.4/code/filesys/directory.cc:135-141 | A name copied into an entry reads back as its first 9 characters, although the copy may write no terminator |
| `BitMaps.BitMap.Mark` | HDH/nachos/nachos/nachos-3.4/code/userprog/bitmap.cc:46-51 | Sets that bit and no other, through the word it lives in |
| `BitMaps.BitMap.Clear` | HDH/nachos/nachos/nachos-3.4/code/userprog/bitmap.cc:60-65 | Clears that bit and no other |
| `BitMaps.BitMap.Test` | HDH/nachos/nachos/nachos-3.4/code/userprog/bitmap.cc:74-83 | Tells the value of the bit |
| `BitMaps.BitMap.Find` | HDH/nachos/nachos/nachos-3.4/code/userprog/bitmap.cc:94-103 | Returns -1 if and only if nothing is clear; otherwise the first clear bit, which it marks, and nothing else changes |
| `BitMaps.BitMap.NumClear` | HDH/nachos/nachos/nachos-3.4/code/userprog/bitmap.cc:111-119 | The number of clear bits |
| `BitMaps.BitMap.constructor` | HDH/nachos/nachos/nachos-3.4/code/userprog/bitmap.cc:20-27 | A new bitmap has all bits clear |
| `BitMaps.UpdateWord` | HDH/nachos/nachos/nachos-3.4/code/userprog/bitmap.cc:46-65 | Changing one bit of one word changes one bit of the map |
| `BitMaps.CountClearUpdate` | HDH/nachos/nachos/nachos-3.4/code/userprog/bitmap.cc:111-119 | Marking a clear bit lowers the count of clear bits by exactly one |
| `Words.BitwiseBits` | HDH/nachos/nachos/nachos-3.4/code/userprog/bitmap.cc:46-83 | Or, and, and-not act on each bit separately |
| `Words.MaskTestsBit` | HDH/nachos/nachos/nachos-3.4/code/userprog/bitmap.cc:74-83 | A one-bit mask is non-zero if and only if that bit is set |
| `Words.WordsRoundTrip` | HDH/nachos/nachos/nachos-3.4/code/userprog/bitmap.cc:148-165 | A word array survives its memory image |
| `Threads.NoLostWakeup` | HDH/nachos/nachos/nachos-3.4/code/threads/synch.cc:64-98 | In every reachable state of any number of threads: whoever is on the queue of a semaphore has called P and not run since; while threads sleep the value is at most the number of woken threads that have not re-tested it; if nothing is ready, a thread sleeps only on value 0; and the value is what the semaphore was made with, plus the V events, minus the P events that some thread got past, counted in the log of the run |
| `Threads.ValueCounts` | HDH/nachos/nachos/nachos-3.4/code/threads/synch.cc:64-98 | The value of a semaphore is its initial value plus Vs minus Ps got past, counted in the log |
| `Threads.ValueStep` | HDH/nachos/nachos/nachos-3.4/code/threads/synch.cc:64-98 | A step changes a value by one for a V, and by minus one exactly when a thread gets past P in it |
| `Threads.InsideIsInP` | HDH/nachos/nachos/nachos-3.4/code/threads/synch.cc:64-77 | A thread is inside P exactly when it has called it and has not run since |
| `Threads.PEffect` | HDH/nachos/nachos/nachos-3.4/code/threads/synch.cc:64-77 | P with a positive value takes one and its caller goes on; with value 0 the caller goes to the end of the queue and off the processor; nothing else changes |
| `Threads.VEffect` | HDH/nachos/nachos/nachos-3.4/code/threads/synch.cc:87-98 | V adds one and makes the first sleeper, and nobody else, the last of the ready list |
| `Threads.WokenInOrder` | HDH/nachos/nachos/nachos-3.4/code/threads/synch.cc:87-98 | The thread at position n of the queue of a semaphore is made ready after exactly n others |
| `Threads.StepKeepsSleeping` | HDH/nachos/nachos/nachos-3.4/code/threads/synch.cc:64-98 | A queue loses its head to a V on its semaphore, and otherwise only grows at its end |
| `Threads.NewThreadEffect` | HDH/nachos/nachos/nachos-3.4/code/threads/thread.cc:35-46 | A new thread can be forked |
| `Threads.ForkEffect` | HDH/nachos/nachos/nachos-3.4/code/threads/thread.cc:100-119 | A forked thread becomes ready, as the last of the list |
| `Threads.YieldEffect` | HDH/nachos/nachos/nachos-3.4/code/threads/thread.cc:187-203 | Yield goes to the head of the ready list and puts its caller at the end, or does nothing when the list is empty |
| `Threads.FinishIsFinal` | HDH/nachos/nachos/nachos-3.4/code/threads/thread.cc:156-168 | A thread that finishes never runs again and is never on the ready list, until a new thread gets its name |
| `Threads.MutualExclusion` | HDH/nachos/nachos/nachos-3.4/code/threads/synch.cc:64-98 | A semaphore made with value 1 and used only in P ... V brackets: in every reachable state at most one thread has got past more Ps than it has done Vs, by one, and the value is then 0 |
| `Threads.TokensConserved` | HDH/nachos/nachos/nachos-3.4/code/threads/synch.cc:64-98 | For bracketed use the value and the holders, counted in the log of the run, add up to the initial value, in every reachable state |
| `Threads.HoldersAre` | HDH/nachos/nachos/nachos-3.4/code/threads/synch.cc:64-98 | Under bracketed use each thread holds as often as it got past P more than it did V |
| `Threads.ExactlyOnePlace` | HDH/nachos/nachos/nachos-3.4/code/threads/thread.cc:100-239 | In every reachable state each live thread is in exactly one place: on the processor, on the ready list, on one semaphore queue, not yet forked, or finished; and no list holds it twice |
| `Threads.DispatchedInOrder` | HDH/nachos/nachos/nachos-3.4/code/threads/scheduler.cc:53-74 | The thread at position n of the ready list is the one switched to after exactly n other switches, however the run goes on |
| `Threads.StepKeepsQueueing` | HDH/nachos/nachos/nachos-3.4/code/threads/scheduler.cc:53-74 | A switch goes to the head of the ready list; otherwise that list only grows at its end |
| `Threads.ScheduleGrows` | HDH/nachos/nachos/nachos-3.4/code/threads/scheduler.cc:53-135 | Whom the processor went to, followed by the ready list, only ever grows at its end |
| `Threads.DestroyedIsNowhere` | HDH/nachos/nachos/nachos-3.4/code/threads/scheduler.cc:90-135 | A thread that is destroyed had finished, is not the running thread, and is on no list |
| `Threads.DestroyedIff` | HDH/nachos/nachos/nachos-3.4/code/threads/scheduler.cc:90-135 | A thread is destroyed exactly when it is threadToBeDestroyed and a switch comes back into a thread that has run before |
| `Threads.SomebodyGoesOn` | HDH/nachos/nachos/nachos-3.4/code/threads/thread.cc:100-239 | In every reachable state the running thread may make every call, and when none runs the head of the ready list can be switched to |
| `Threads.ContentionRuns` | HDH/nachos/nachos/nachos-3.4/code/threads/synch.cc:64-98 | A run in which a second thread has to sleep in P until the first does V |
| `Threads.RunKeepsInvariant` | HDH/nachos/nachos/nachos-3.4/code/threads/thread.cc:100-239 | The kernel invariant holds in every reachable state |
| `Threads.StepKeepsInv` | HDH/nachos/nachos/nachos-3.4/code/threads/thread.cc:100-239 | Every step (new semaphore, new thread, Fork, P, V, V from a handler, Yield, Finish, dispatch) keeps the kernel invariant |
| `Threads.TryPKeepsInv` | HDH/nachos/nachos/nachos-3.4/code/threads/synch.cc:64-77 | Blocking in P, passing P, and re-testing after a wakeup keep the kernel invariant |
| `Threads.DoVKeepsInv` | HDH/nachos/nachos/nachos-3.4/code/threads/synch.cc:87-98 | V, by a thread or a handler, keeps the kernel invariant: the value it adds is covered by the thread it wakes |
| `Threads.YieldKeepsInv` | HDH/nachos/nachos/nachos-3.4/code/threads/thread.cc:187-203 | Yield keeps the kernel invariant |
| `Threads.RunKeepsInv` | HDH/nachos/nachos/nachos-3.4/code/threads/scheduler.cc:90-135 | Switching to the thread taken off the ready list restores the kernel invariant, including the destruction of a finished thread |
| `Multiplier.Mult` | HDH/nachos/nachos/nachos-3.4/code/machine/mipssim.cc:635-692 | For every pair of operands the register pair holds the exact unsigned product, or the exact signed product, including the most negative operand |
| `Multiplier.MultUnsigned` | HDH/nachos/nachos/nachos-3.4/code/machine/mipssim.cc:657-678 | The shift-and-add loop, with its early exit and the arithmetic shift of a negative operand, computes the exact 64-bit product of the unsigned readings |
| `Multiplier.AddPair` | HDH/nachos/nachos/nachos-3.4/code/machine/mipssim.cc:664-668 | Adding low words, detecting the carry and adding high words is 64-bit addition |
| `Multiplier.DoublePair` | HDH/nachos/nachos/nachos-3.4/code/machine/mipssim.cc:672-676 | Shifting both words with the moved bit is 64-bit doubling |
| `Multiplier.Complement` | HDH/nachos/nachos/nachos-3.4/code/machine/mipssim.cc:682-688 | Negating the word pair gives the 64-bit two's complement |
| `Multiplier.RoundKeepsInv` | HDH/nachos/nachos/nachos-3.4/code/machine/mipssim.cc:663-678 | Each round keeps: what is accumulated plus what is left to multiply is the product |
| `Multiplier.NegateIsMagnitude` | HDH/nachos/nachos/nachos-3.4/code/machine/mipssim.cc:646-655 | Negating a negative C int gives its magnitude when read unsigned, also for the most negative one |
| `Machines.Machine.OneInstruction` | HDH/nachos/nachos/nachos-3.4/code/machine/mipssim.cc:93-565 | Executing the instruction at the program counter on the register array and memory, statement by statement, does what the step function says for every instruction word and state; if it traps, the handler finds memory, program counters, Hi, Lo and all general registers as they were before it, with only the pending load carried out |
| `Machines.Machine.Carry` | HDH/nachos/nachos/nachos-3.4/code/machine/mipssim.cc:119-564 | From the decoded instruction on: the switch, the delayed load and the program counters together give the state of the step function |
| `Machines.Machine.Switch` | HDH/nachos/nachos/nachos-3.4/code/machine/mipssim.cc:123-552 | Every case of the switch, with its writes, memory accesses and early returns in source order, has exactly the effect that the opcode has on registers and memory, and none when it traps |
| `Machines.Machine.Arithmetic` | HDH/nachos/nachos/nachos-3.4/code/machine/mipssim.cc:125-469 | ADD, ADDU, SUB and SUBU write rd only after the overflow test has passed |
| `Machines.Machine.Logic` | HDH/nachos/nachos/nachos-3.4/code/machine/mipssim.cc:153-540 | AND, OR, NOR, XOR, SLT and SLTU write exactly rd |
| `Machines.Machine.ShiftOrMove` | HDH/nachos/nachos/nachos-3.4/code/machine/mipssim.cc:345-455 | The shifts and the moves from Hi and Lo write exactly rd |
| `Machines.Machine.Immediate` | HDH/nachos/nachos/nachos-3.4/code/machine/mipssim.cc:135-544 | Immediate instructions write exactly rt, ADDI only after its overflow test |
| `Machines.Machine.MultiplyDivide` | HDH/nachos/nachos/nachos-3.4/code/machine/mipssim.cc:195-369 | DIV, DIVU, MULT, MULTU, MTHI and MTLO write Hi and Lo and no general register; products come from the multiplier |
| `Machines.Machine.Branch` | HDH/nachos/nachos/nachos-3.4/code/machine/mipssim.cc:161-229 | Branches and jumps set the next address; the linking ones write the return address before they read rs |
| `Machines.Machine.LoadPart` | HDH/nachos/nachos/nachos-3.4/code/machine/mipssim.cc:231-261 | Byte and half-word loads trap before anything is written, and otherwise only queue the value |
| `Machines.Machine.LoadWord` | HDH/nachos/nachos/nachos-3.4/code/machine/mipssim.cc:268-343 | Word loads likewise; LWR merges with the register or with the value on its way there |
| `Machines.Machine.StoreAll` | HDH/nachos/nachos/nachos-3.4/code/machine/mipssim.cc:383-475 | Stores write exactly the bytes addressed, or trap with memory unchanged |
| `Machines.Machine.StoreMerged` | HDH/nachos/nachos/nachos-3.4/code/machine/mipssim.cc:477-532 | SWL and SWR read and then write; whichever access traps, memory is unchanged |
| `Machines.Machine.ReadMem` | HDH/nachos/nachos/nachos-3.4/code/machine/translate.cc:87-122 | A read that cannot be translated traps with the bad address recorded; otherwise no register changes |
| `Machines.Machine.WriteMem` | HDH/nachos/nachos/nachos-3.4/code/machine/translate.cc:137-169 | A write that cannot be translated traps with memory unchanged |
| `Machines.Machine.DelayedLoad` | HDH/nachos/nachos/nachos-3.4/code/machine/mipssim.cc:575-582 | Carries out the pending load, records the next one, and resets r0 |
| `Machines.Machine.RaiseException` | HDH/nachos/nachos/nachos-3.4/code/machine/machine.cc:100-111 | At handler entry the pending load is done and the bad address recorded; nothing else changed |
| `Machines.Machine.Interrupt` | HDH/nachos/nachos/nachos-3.4/code/machine/interrupt.cc:321-326 | Before the handler of an interrupt is called the pending load is carried out and nothing else changes |
| `Machines.Machine.Run` | HDH/nachos/nachos/nachos-3.4/code/machine/mipssim.cc:30-46 | The loop over instructions, with interrupts at any points between them, ends in the state of the same number of steps of the step function |
| `Instructions.InstructionsMean` | HDH/nachos/nachos/nachos-3.4/code/machine/mipssim.cc:119-564 | For every instruction and every registers, memory and page table: what the next state holds, said per op code without the functions of the interpreter (sums modulo 2^32 or exact with overflow trap, logic bit by bit, shifts as multiplication and floor, comparisons by the signed or unsigned reading, products and quotients, where control goes, which bytes are loaded or stored, which exception is raised), with every other register unchanged but for the pending load |
| `Instructions.StepMeans` | HDH/nachos/nachos/nachos-3.4/code/machine/mipssim.cc:93-105 | The word at the program counter is fetched through the page table and decoded, and the step is what that instruction means; a fetch that cannot be translated traps |
| `Instructions.RdLaw` | HDH/nachos/nachos/nachos-3.4/code/machine/mipssim.cc:125-540 | What the register instructions leave in rd, in every state |
| `Instructions.RtLaw` | HDH/nachos/nachos/nachos-3.4/code/machine/mipssim.cc:135-544 | What the immediate instructions leave in rt, in every state |
| `Instructions.HiLoLaw` | HDH/nachos/nachos/nachos-3.4/code/machine/mipssim.cc:195-369 | What multiplication, division and the moves leave in Hi and Lo, in every state |
| `Instructions.JumpLaw` | HDH/nachos/nachos/nachos-3.4/code/machine/mipssim.cc:161-229 | Where every branch and jump goes after its delay slot, exactly when a branch is taken, and which register gets the return address |
| `Instructions.LoadLaw` | HDH/nachos/nachos/nachos-3.4/code/machine/mipssim.cc:231-343 | Which bytes a load takes from where, as the one value in the range of the load that is congruent to them, or which exception it ends in |
| `Instructions.StoreLaw` | HDH/nachos/nachos/nachos-3.4/code/machine/mipssim.cc:383-532 | Which bytes a store changes to what, with all others unchanged, or which exception it ends in |
| `Instructions.BranchesAreOpposite` | HDH/nachos/nachos/nachos-3.4/code/machine/mipssim.cc:161-193 | In every state exactly one of BEQ and BNE with the same fields goes to the target |
| `Instructions.DecodeOfEncode` | HDH/nachos/nachos/nachos-3.4/code/machine/mipssim.cc:589-626 | Decoding gives back every instruction that was encoded by the numbers of the architecture |
| `Instructions.EncodeOfDecode` | HDH/nachos/nachos/nachos-3.4/code/machine/mipssim.h:117-150 | Every word that is not reserved or unimplemented is the encoding of what it decodes to, so the tables lose nothing |
| `Mips.OneStep` | HDH/nachos/nachos/nachos-3.4/code/machine/mipssim.cc:93-565 | After every instruction, completed or trapped, r0 is zero and the delayed-load target is one of the 32 general registers |
| `Mips.CompletedMovesOn` | HDH/nachos/nachos/nachos-3.4/code/machine/mipssim.cc:555-564 | An instruction that completes advances through the delay slot, and a pending load arrives even over a direct write to the same register |
| `Mips.StepsExtend` | HDH/nachos/nachos/nachos-3.4/code/machine/mipssim.cc:39-45 | One more turn of the loop is one more step from where the others ended |
| `Restarts.RestartIsSafeIff` | HDH/nachos/nachos/nachos-3.4/code/machine/mipssim.cc:70-91 | An instruction begun again after a trap can give another result, for some registers, memory and page table, if and only if it is sensitive to the pending load, a test on its fields |
| `Restarts.RestartIsTransparent` | HDH/nachos/nachos/nachos-3.4/code/machine/mipssim.cc:70-91 | An instruction that is not sensitive does the same when begun again: same outcome, same memory, same registers but for the recorded bad address |
| `Restarts.SensitiveCanDiffer` | HDH/nachos/nachos/nachos-3.4/code/machine/mipssim.cc:575-582 | For every sensitive instruction there is a state where it does differ |
| `Restarts.TrapAndRestart` | HDH/nachos/nachos/nachos-3.4/code/machine/machine.cc:100-111 | After a trap the kernel may change page table and memory: an instruction that is not sensitive then does what it would have done, had the page been there from the start |
| `Restarts.RestartGoesWrong` | HDH/nachos/nachos/nachos-3.4/code/machine/mipssim.cc:575-582 | A page fault on the instruction after a load: with the page present it reads the old register, begun again after the fault it reads the loaded value |
| `Restarts.InterruptIsInvisibleIff` | HDH/nachos/nachos/nachos-3.4/code/machine/interrupt.cc:321-326 | An interrupt just before an instruction can change what the instruction does, for some registers, memory and page table, if and only if the instruction is sensitive to the pending load |
| `Restarts.InterruptsAreInvisible` | HDH/nachos/nachos/nachos-3.4/code/machine/mipssim.cc:39-45 | A run with interrupts at any set of points ends with the same outcome, memory and registers (but the bad address) as the run without them, if no instruction that one comes before is sensitive to the load pending there |
| `Restarts.InterruptGoesWrong` | HDH/nachos/nachos/nachos-3.4/code/machine/interrupt.cc:321-326 | A load, then an instruction in its delay slot that reads the old register: with an interrupt between the two it reads the loaded value |
| `Mips.ReadsOnlyOperands` | HDH/nachos/nachos/nachos-3.4/code/machine/mipssim.cc:123-552 | Every instruction depends only on the registers it names as operands (OR not on rt) |
| `Mips.WritesOnlyDest` | HDH/nachos/nachos/nachos-3.4/code/machine/mipssim.cc:123-552 | Every instruction directly writes at most its one destination register |
| `Mips.DecodedIsExecutable` | HDH/nachos/nachos/nachos-3.4/code/machine/mipssim.cc:589-626 | Decoding any word yields an opcode the switch handles, with its fields in range |
| `Mips.OverflowIsExact` | HDH/nachos/nachos/nachos-3.4/code/machine/mipssim.cc:125-143 | The sign tests for ADD, ADDI and SUB hold if and only if 32 bits cannot hold the exact result |
| `Mips.AdditionIsExact` | HDH/nachos/nachos/nachos-3.4/code/machine/mipssim.cc:125-143 | ADD, ADDI and SUB trap if and only if the exact result does not fit, and otherwise leave the exact result, unless the pending load goes to the same register and wins |
| `Mips.MultiplyIsExact` | HDH/nachos/nachos/nachos-3.4/code/machine/mipssim.cc:361-364 | MULT leaves the exact signed product in Hi and Lo |
| `Mips.DivideIsExact` | HDH/nachos/nachos/nachos-3.4/code/machine/mipssim.cc:195-203 | DIV leaves 0 and 0 for divisor 0, and otherwise the quotient and remainder that make up the dividend, the remainder smaller than the divisor and with the sign of the dividend |
| `Lists.List.SortedInsert` | HDH/nachos/nachos/nachos-3.4/code/threads/list.cc:178-202 | The linked cells hold the old sequence with the element inserted before the first larger key; `last` stays the final cell |
| `Lists.List.SortedRemove` | HDH/nachos/nachos/nachos-3.4/code/threads/list.cc:217-237 | Takes off the first element with its key, or reports that the list is empty |
| `Lists.List.Append` | HDH/nachos/nachos/nachos-3.4/code/threads/list.cc:76-88 | The cells hold the old sequence and the item at its end |
| `Lists.List.Prepend` | HDH/nachos/nachos/nachos-3.4/code/threads/list.cc:102-114 | The cells hold the item and then the old sequence |
| `Lists.List.Remove` | HDH/nachos/nachos/nachos-3.4/code/threads/list.cc:124-128 | Takes off the first item, or reports that the list is empty |
| `Lists.InsertedIsSorted` | HDH/nachos/nachos/nachos-3.4/code/threads/list.cc:178-202 | Insertion keeps a sorted list sorted, adds exactly that element, and puts it after all keys at most its own |
| `Lists.HeadIsMinimal` | HDH/nachos/nachos/nachos-3.4/code/threads/list.cc:217-237 | The head of a sorted list has the least key and the rest is sorted |
| `Interrupts.Interrupt.OneTick` | HDH/nachos/nachos/nachos-3.4/code/machine/interrupt.cc:150-179 | Advances time by the tick of the mode, fires what is due in order, at that time and never early, whatever the handlers do, and leaves nothing due; everything pending before or asked for by a handler is pending or has fired, once; a switch is asked for exactly if it was before or some handler that fired did; total = idle + system + user ticks |
| `Interrupts.Interrupt.Drain` | HDH/nachos/nachos/nachos-3.4/code/machine/interrupt.cc:169-170 | The drain loop ends, because each firing leaves one due interrupt fewer, and leaves nothing due (an idle machine may keep a lone timer); no interrupt is lost or made up |
| `Interrupts.Interrupt.CheckIfDue` | HDH/nachos/nachos/nachos-3.4/code/machine/interrupt.cc:290-336 | Fires the earliest interrupt if and only if it is due or the clock may move to it, unless an idle machine has only its timer; the rest of the queue and what the handler asks for stay, and nothing else joins |
| `Interrupts.Interrupt.Idle` | HDH/nachos/nachos/nachos-3.4/code/machine/interrupt.cc:210-234 | Halts if and only if nothing but a timer is pending; time moves exactly to the next interrupt, which fires first and at that time, as does everything else that fires; no interrupt is lost or made up |
| `Interrupts.Interrupt.SetLevel` | HDH/nachos/nachos/nachos-3.4/code/machine/interrupt.cc:114-127 | Enabling interrupts lets time pass, leaves nothing due, loses no interrupt and reports whether a switch is wanted; any other change of level leaves time and queue alone |
| `Interrupts.Interrupt.Schedule` | HDH/nachos/nachos/nachos-3.4/code/machine/interrupt.cc:264-275 | The interrupt joins the queue at its due time; order and history stay sound |
| `Interrupts.Interrupt.Fire` | HDH/nachos/nachos/nachos-3.4/code/machine/interrupt.cc:321-335 | A handler runs no earlier than its due time and not before an earlier one; exactly what it asks for joins the queue, due strictly later; a switch is wanted if it asks for one |
| `Interrupts.FireKeepsOrder` | HDH/nachos/nachos/nachos-3.4/code/machine/interrupt.cc:290-336 | Firing the least due time keeps the history of firings in order of due times |
| `Interrupts.ConservedThen` | HDH/nachos/nachos/nachos-3.4/code/machine/interrupt.cc:290-336 | Conservation of interrupts composes over stretches of time |
| `Interrupts.TakeFirst` | HDH/nachos/nachos/nachos-3.4/code/machine/interrupt.cc:300-312 | Taking the first interrupt off, and putting it back, keeps queue and history sound and loses nothing |
| `DiskTiming.Run` | HDH/nachos/nachos/nachos-3.4/code/machine/disk.cc:115-271 | Over any sequence of requests to a fresh disk, with an arm that moves one track per SeekTime: a read whose sector passed under the head since the buffer began to fill takes one transfer, and any other request ends exactly when its sector has passed for the first time under a head that is over its track; the buffer restarts at the first sector boundary after the arm arrives |
| `DiskTiming.Perform` | HDH/nachos/nachos/nachos-3.4/code/machine/disk.cc:115-166 | The same for one request, from issue to completion interrupt, in any state a run can reach |
| `DiskTiming.PhysicalIsUnique` | HDH/nachos/nachos/nachos-3.4/code/machine/disk.cc:232-253 | That description leaves no choice: the end of a request is determined by arm, platter and head |
| `DiskTiming.SeekIsExact` | HDH/nachos/nachos/nachos-3.4/code/machine/disk.cc:179-194 | With an arm that moves one track per SeekTime towards its target, the seek time is exactly how long it takes to be there |
| `DiskTiming.BufferHitIsExact` | HDH/nachos/nachos/nachos-3.4/code/machine/disk.cc:232-246 | The track-buffer test succeeds if and only if the request is a read of the current track whose sector passed completely under the head since the buffer began to fill |
| `DiskTiming.SlowPathIsEarliest` | HDH/nachos/nachos/nachos-3.4/code/machine/disk.cc:232-253 | Otherwise the request ends on a sector boundary right after a pass of its sector, and no earlier pass after the seek would do |
| `DiskTiming.LatencyBounds` | HDH/nachos/nachos/nachos-3.4/code/machine/disk.cc:232-253 | Every latency is positive and at most longest seek, one turn and one transfer, so that Schedule accepts it |
| `DiskTiming.RequestIsPhysical` | HDH/nachos/nachos/nachos-3.4/code/machine/disk.cc:179-253 | The computed latency is the one that arm and platter allow |
| `DiskTiming.Disk.Request` | HDH/nachos/nachos/nachos-3.4/code/machine/disk.cc:115-153 | Issuing a request sends the arm to the track; the head is where it arrives, and the buffer starts at the next sector boundary |
| `DiskTiming.Disk.HandleInterrupt` | HDH/nachos/nachos/nachos-3.4/code/machine/disk.cc:161-166 | When the request is done the buffer start is in the past, and the disk is free again |
| `DiskTiming.Disk.UpdateLast` | HDH/nachos/nachos/nachos-3.4/code/machine/disk.cc:261-271 | The buffer restarts if and only if the track changes, at the first sector boundary after the arm arrives |
| `DiskTiming.RotationTicks` | HDH/nachos/nachos/nachos-3.4/code/machine/disk.cc:179-194 | The wait is to the next sector boundary and less than one sector |
| `DiskTiming.ModuloDiff` | HDH/nachos/nachos/nachos-3.4/code/machine/disk.cc:202-209 | The distance on the track is the number of sectors to turn from one to the other |
| `Memory.Isolation` | HDH/nachos/nachos/nachos-3.4/code/machine/translate.cc:87-255 | No write through one page table changes the result of any read through a table with other frames |
| `Memory.PhysicalMemory.WriteIsInvisible` | HDH/nachos/nachos/nachos-3.4/code/machine/translate.cc:87-169 | A write by one live address space changes no read by another, at any address |
| `Memory.PhysicalMemory.Run` | HDH/nachos/nachos/nachos-3.4/code/machine/translate.cc:87-169 | However address spaces are created, deleted and written to, one that only looks on keeps its page table, and every read through it gives what it gave at the start |
| `Memory.PhysicalMemory.Other` | HDH/nachos/nachos/nachos-3.4/code/userprog/addrspace.cc:85-123 | The same for one creation, deletion or write |
| `Memory.PhysicalMemory.LiveSpacesAreSeparate` | HDH/nachos/nachos/nachos-3.4/code/userprog/addrspace.cc:85-123 | Two live address spaces never share a frame |
| `Memory.PhysicalMemory.LiveSpacesAreOneToOne` | HDH/nachos/nachos/nachos-3.4/code/userprog/addrspace.cc:110-122 | No live address space uses a frame for two of its pages |
| `Memory.PhysicalMemory.Create` | HDH/nachos/nachos/nachos-3.4/code/userprog/addrspace.cc:85-123 | A new space gets one clear frame per page, or none if there are too few; the frames of the live spaces stay disjoint and are exactly the marked ones |
| `Memory.PhysicalMemory.FillTable` | HDH/nachos/nachos/nachos-3.4/code/userprog/addrspace.cc:110-122 | No Find in the loop fails; the table maps each page to a distinct newly marked frame |
| `Memory.PhysicalMemory.Delete` | HDH/nachos/nachos/nachos-3.4/code/userprog/addrspace.cc:247-252 | Exactly the frames of that space become clear, and the partition holds for the others |
| `Memory.PhysicalMemory.ReadMem` | HDH/nachos/nachos/nachos-3.4/code/machine/translate.cc:87-122 | Reads the bytes that translation finds, or traps without touching the table |
| `Memory.PhysicalMemory.WriteMem` | HDH/nachos/nachos/nachos-3.4/code/machine/translate.cc:137-169 | Changes exactly the bytes of the translated access, or traps with memory and table unchanged |
| `Memory.AccessStaysInFrame` | HDH/nachos/nachos/nachos-3.4/code/machine/translate.cc:186-255 | Whatever the table says, a successful access lies within one frame of physical memory, the one the table names, at the offset of the virtual address |
| `Memory.LoadAfterStore` | HDH/nachos/nachos/nachos-3.4/code/machine/translate.cc:87-169 | A load of the same width returns what was stored, or its low part |
| `Memory.ReadYourWrite` | HDH/nachos/nachos/nachos-3.4/code/machine/translate.cc:87-169 | A word written through a page table reads back through it |
| `Memory.PlacesDiffer` | HDH/nachos/nachos/nachos-3.4/code/machine/translate.cc:207-252 | In a space that uses no frame twice, accesses that have no virtual byte in common have no physical byte in common |
| `Memory.WriteLeavesRest` | HDH/nachos/nachos/nachos-3.4/code/machine/translate.cc:87-169 | A write leaves every read at other addresses of the same space alone |
| `Memory.FaultsAre` | HDH/nachos/nachos/nachos-3.4/code/machine/translate.cc:196-246 | Which exception a translation ends in, exactly |
| `Processes.JoinReturnsExitCode` | HDH/nachos/nachos/nachos-3.4/code/userprog/ptable.cc:56-92 | In every run with any number of processes, read off its events: a Join that returned did so to the process whose Exec made the child in that slot, after that process joined it, and with the code the child passed to Exit |
| `Processes.ParentIsMaker` | HDH/nachos/nachos/nachos-3.4/code/userprog/ptable.cc:30-53 | The parent of a process is the one whose Exec made it, in the slot it is in |
| `Processes.MadeOnce` | HDH/nachos/nachos/nachos-3.4/code/userprog/ptable.cc:30-53 | Each process is made by one Exec |
| `Processes.JoinedOnce` | HDH/nachos/nachos/nachos-3.4/code/userprog/ptable.cc:79-92 | No child is joined twice |
| `Processes.ExecEffect` | HDH/nachos/nachos/nachos-3.4/code/userprog/ptable.cc:44-52 | Exec puts a child of its caller into the slot; the caller may join it and the child may exit |
| `Processes.ChildCanBeJoined` | HDH/nachos/nachos/nachos-3.4/code/userprog/ptable.cc:79-92 | In every run a process can join a child it made exactly when it is at user level, until it has done so |
| `Processes.HandshakeEnds` | HDH/nachos/nachos/nachos-3.4/code/userprog/pcb.cc:86-108 | Once both sides have arrived they can finish without anybody else, and the parent gets the code |
| `Processes.HandshakeCanBeHad` | HDH/nachos/nachos/nachos-3.4/code/userprog/ptable.cc:30-111 | From every state with a process at user level and a free slot there is a run through Exec, Join and Exit, in either order, after which the child is gone and the parent has its code |
| `Processes.RunsGoThrough` | HDH/nachos/nachos/nachos-3.4/code/userprog/ptable.cc:30-111 | The main process can have a child and get its code |
| `Processes.RemovedOnlyAfterRead` | HDH/nachos/nachos/nachos-3.4/code/userprog/ptable.cc:56-111 | A child clears its slot and deletes its block only after the parent has read its code, and the block is its own |
| `Processes.NeitherSideStaysBlocked` | HDH/nachos/nachos/nachos-3.4/code/userprog/pcb.cc:86-108 | Once both sides have arrived, in either order, the side whose turn it is can step, and each such step brings the handshake one closer to its end |
| `Processes.OthersDoNotInterfere` | HDH/nachos/nachos/nachos-3.4/code/userprog/pcb.cc:86-108 | No step of any other process sets the handshake back |
| `Processes.BlocksAreThere` | HDH/nachos/nachos/nachos-3.4/code/userprog/ptable.cc:56-92 | In every reachable state a process inside Join or Exit finds the blocks it is about to use; only an empty semaphore can hold it up |
| `Processes.FreeSlotIsEmpty` | HDH/nachos/nachos/nachos-3.4/code/userprog/ptable.cc:95-111 | In every reachable state a slot is marked if and only if it holds the block of a process that still exists |
| `Processes.EventKeepsInv` | HDH/nachos/nachos/nachos-3.4/code/userprog/ptable.cc:30-111 | Every step of every process keeps the invariant of the process table |
| `Processes.RunKeepsInv` | HDH/nachos/nachos/nachos-3.4/code/userprog/ptable.cc:30-111 | The invariant holds in every state of every run |
| `Consoles.LinesComeOutWhole` | HDH/nachos/nachos/nachos-3.4/code/threads/synchcons.cc:71-87 | For any number of writers, in every reachable state: the output is the lines handed to Write by those whose Write has ended, in that order and each in one piece, followed by a beginning of the line of the one writer that has the line, if any |
| `Consoles.WritesWhatWasAsked` | HDH/nachos/nachos/nachos-3.4/code/threads/synchcons.cc:71-87 | What a writer is writing is the line it was asked to write last |
| `Consoles.DeviceIsNeverBusy` | HDH/nachos/nachos/nachos-3.4/code/machine/console.cc:142-150 | No character is put before the device has reported that the one before is out: the assertion of PutChar holds |
| `Consoles.LineCanBeWritten` | HDH/nachos/nachos/nachos-3.4/code/threads/synchcons.cc:71-87 | From every state in which nobody has the line, any thread can write any line, and then exactly that line has been added to the output |
| `Consoles.WriterProgresses` | HDH/nachos/nachos/nachos-3.4/code/threads/synchcons.cc:71-87 | The writer that has the line can step, or can after the interrupt that is on its way |
| `Consoles.StepKeepsInv` | HDH/nachos/nachos/nachos-3.4/code/machine/console.cc:113-150 | Every step of writers and device keeps the console invariant |
| `Consoles.RunKeepsInv` | HDH/nachos/nachos/nachos-3.4/code/machine/console.cc:113-150 | The console invariant holds in every reachable state |
| `WaterTaps.GreedyWithinThreeHalves` | HDH/nachos/nachos/nachos-3.4/code/test/voinuoc.c:50-58 | For every sequence of requests the tap rule takes at most 3/2 of the time of any assignment to two taps |
| `WaterTaps.ThreeHalvesIsTight` | HDH/nachos/nachos/nachos-3.4/code/test/voinuoc.c:50-58 | The bound 3/2 is reached |
| `WaterTaps.GreedyIsBalanced` | HDH/nachos/nachos/nachos-3.4/code/test/voinuoc.c:50-58 | The taps differ by at most the largest request and together take the sum of the requests |
| `WaterTaps.EveryScheduleIsLong` | HDH/nachos/nachos/nachos-3.4/code/test/voinuoc.c:50-58 | Any assignment takes the sum in total and at least the largest request |
| `WaterTaps.ServeAll` | HDH/nachos/nachos/nachos-3.4/code/test/voinuoc.c:50-58 | The loop over the requests computes the result of the tap rule |
| `WaterTaps.OneTurn` | HDH/nachos/nachos/nachos-3.4/code/test/sinhvien.c:11-93 | In every reachable state the three semaphores plus the programs at work add up to one; each wait is released by the right neighbour; some program can go on until the input is used up |
| `WaterTaps.ProgramsFinish` | HDH/nachos/nachos/nachos-3.4/code/test/MayRotNuoc.c:39-64 | No run is longer than a bound computed from the input, and wherever the programs cannot go on the input is used up and the whole output is right |
| `WaterTaps.StepsLeftFall` | HDH/nachos/nachos/nachos-3.4/code/test/sinhvien.c:11-93 | Every step of every program uses up some of that bound |
| `WaterTaps.StepKeepsRing` | HDH/nachos/nachos/nachos-3.4/code/test/MayRotNuoc.c:39-64 | Every step of the three programs keeps the turn in one place |
| `WaterTaps.RunKeepsRing` | HDH/nachos/nachos/nachos-3.4/code/test/MayRotNuoc.c:39-64 | The same over whole runs |
| `WaterTaps.OutputIsRight` | HDH/nachos/nachos/nachos-3.4/code/test/voinuoc.c:11-72 | When the programs have used up the input, the output file holds every line rendered request by request with its taps |
| `WaterTaps.StepKeepsPromise` | HDH/nachos/nachos/nachos-3.4/code/test/sinhvien.c:11-93 | No step changes what the output will be in the end |
| `WaterTaps.MarksFollowTheRule` | HDH/nachos/nachos/nachos-3.4/code/test/voinuoc.c:50-58 | Each request of a line is marked with the tap the rule gives it after the requests before it |
| `WaterTaps.MarkIsCharged` | HDH/nachos/nachos/nachos-3.4/code/test/voinuoc.c:50-58 | The tap that is printed is the one whose time grows |
| `WaterTaps.ValueOfDecimal` | HDH/nachos/nachos/nachos-3.4/code/test/voinuoc.c:24-39 | Every number in decimal is read back |
| `WaterTaps.TokensJoin` | HDH/nachos/nachos/nachos-3.4/code/test/sinhvien.c:40-80 | The requests of a line, put together with spaces, give the line, but for a space at its very end |
| `WaterTaps.RequestOf` | HDH/nachos/nachos/nachos-3.4/code/test/voinuoc.c:24-39 | What the taps read from the request file is the request that was written there |

## Left out

- Lock, Condition, SynchList, SynchDisk and the post office: the first two are empty stubs and the others rest on them; the disk is used by one caller at a time here.
- Network, sysdep, UNIX files and sockets, timers and random numbers, printing, debug output, and the assembly of the context switch.
- Host layout: little-endian, 4-byte int, 1-byte bool with padding, so a directory entry takes 20 bytes; padding bytes are written as zero.
- FileSystems.FileSystem.Create: assumes a size that is not negative, and that a file above MaxFileSize is refused anyway, for its name or for want of room; any other size runs past the sector table (SizeFitsIff), which has no meaning in C.
- FileSystems.FileSystem.CreateNew: assumes the same of its size.
- FileSystems.FileSystem.CreateThenRemove: assumes the same of its size.
- FileHeaders.FileHeader.Allocate: assumes a size that is not negative and that SizeFitsIff allows.
- Handles.Session.Create: assumes of its size what FileSystem.Create does.
- Handles.Session.Write: with position + numBytes within an int, and not through a removed file that has a header among its sectors; StaleWriteIsSafeIff, StaleWrite and HugeRequestEscapesClipping say what happens otherwise.
- Handles.Session.Read: with position + numBytes within an int; of a read through a removed file only the count is stated, since its sectors may hold anything by then.
- FileSystems.FileSystem.WriteHeld: with position + numBytes within an int.
- The table of ten open files and its free-slot search in filesys.cc, and the descriptor calls built on it: descriptors are not reused here, handles are numbered in the order of opening and never closed.
- List and Print of the file system, and fetching a disk that was not written by this file system.
- Threads: threads, semaphores and the scheduler are a step relation on values, since the claims are about interleavings; update in place and the cells of the queues are shown in List instead. Stack bounds, saved registers and address spaces of threads are not modelled.
- Threads.DestroyedIsNowhere: does not say that every finished thread is destroyed in the end; the code does not guarantee that.
- Processes: P and V are single steps, Remove is one step (nothing in it can cause a context switch), and every child is joined at most once and by a parent that is still alive and joins all its children before it exits. The counter numwait, file names, error messages, and the failing path of ExecUpdate (which leaves the slot it found marked) are not modelled.
- Consoles: P and V are single steps; the reading side of the console is not modelled.
- WaterTaps: P and V are single steps, files are strings, one input line stands for one time point, no file operation fails, times of the taps are unbounded integers (they are C ints in the programs), and lines hold no '*' (the end mark of the programs).
- Interrupts: tick counters do not overflow; a handler is given as the interrupts it schedules and whether it asks for a switch, any such effect each time; the switch itself is returned to the caller of OneTick and SetLevel; the delayed load that CheckIfDue completes is Machines.Machine.Interrupt. Interrupts of equal due time may change order, as in the code. OneTick and SetLevel are not called while the machine idles, as in the kernel.
- DiskTiming: times do not overflow; the data of a request is in FileHeaders.Disk.
- Memory: a linear page table only, no TLB; loading of program images and the lock around it are left out; frame ownership covers both constructors, which fill the table by the same loop.
- Memory.PhysicalMemory.Create: takes the byte size of the program, not its file; the assertion that stops the simulator for a program larger than all of memory is not modelled, the space is then empty like any that finds too few frames.
- Machines: the cases of the switch are grouped by kind of instruction; the failed assertions of LWL, LWR, SWL and SWR on unaligned addresses end the run.
- Instructions: says what the instructions of this simulator do; OR, SRL and SRLV do not do what the architecture says.
- Instructions.InstructionsMean: the most negative number divided by -1 is undefined in C; nothing is stated for it.
- Mips.DivideIsExact: the most negative number divided by -1 is undefined in C; nothing is stated for it.
- Machines.Machine.Run: stops at the first instruction that traps; the page table at each step is the one found there, and a switch to another thread between two instructions is not part of it.
- Restarts.InterruptsAreInvisible: one way only over whole runs, since a later instruction may hide a difference; InterruptIsInvisibleIff is the exact condition for one instruction.
- Mips.OneStep: stops at the entry of the exception handler; what system calls do to registers and memory is not modelled.
- code/bin, the C++ examples, the stub file system and the simple test programs.
