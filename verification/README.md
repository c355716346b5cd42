# A verified model of the kernel's storage, memory and scheduling core

This project models the parts of the kernel that hold real state: the ext2
block layer and its directories, the kernel heap, the four-level page tables
with the ELF segment loader, the task scheduler, the FAT32 sector cache with
its cluster chains, and the integer printing and parsing routines. Dafny 4.11
proves every statement; `dafny verify dfyconfig.toml` checks the whole project.

Code that changes state in place is modelled by classes and methods
(`Partition`, `WordBuffer`, `Heap`, `Ram`, `TaskScheduler`, `Volume`, `File`, buffers as
arrays). Each such method is proved against a specification on values, and the
laws are lemmas about those values:

* **ext2** (`Ext2*.dfy`). The disk is a sequence of whole blocks, a block is a
  sequence of 32-bit words. `Leaves` and `Tables` read a block tree off the
  disk; `FileBlocks` and `FileTables` do so for an inode's fifteen slots. The
  walkers, the allocator, the block-list loader and the release of a file are
  all proved against these two functions. `Ext2Ownership` and `Ext2Runs` state
  that no block has two owners and that a file nobody works on reads the same
  after any run, failed growths included. `Ext2Directory` works on the bytes of a directory.
  `Ext2Address`, `Ext2OnDisk` and `Ext2Bitmap` tell all of this in single numbers
  of the disk: the address of a block by look-ups, a byte of a file as a byte of
  a word, a block handed out as a bit of a bitmap word.
* **Heap** (`HeapList`, `HeapAccounts`, `KernelHeap`). Memory is read as
  headers and as bytes; storing a header destroys the 48 bytes under it and
  every header that overlaps it, so the proofs show that no header write lands
  in a live payload.
* **Paging** (`PageTables`, `WayEntries`, `Paging`, `AddressSpaces`, `PageDuplication`,
  `SharedTables`, `Loader`, `ProgramLoading`). Physical memory is a sequence of frames holding either entries or
  bytes; the tree of tables is a function of the frames. The layout of entries
  and indices is that of section 4.5 of the Intel SDM, Volume 3A, and who may use
  a page is decided by all four entries on its way, as in section 4.6; the loader
  follows chapter 5 of the System V gABI.
* **Scheduler** (`ScheduleOrder`, `Scheduler`). The linked task list refines a
  list of states and pids, on which runs are sequences of events.
* **FAT32** (`FatVolume`, `FatFile`, `FatOnDisk`, `Bytes`). Disk transfers may fail at any
  time; a ghost flag records that one did.
* **Numbers** (`Division`, `Numerals`, `Parsing`, `Printing`, `ReadBack`,
  `NumberText`).

## Results that differ from what one might expect

The code is modelled as it is. Where a natural law fails, the project says
exactly when it holds.

* `ext2_read_inode_blocks` and `ext2_write_inode_blocks` transfer nothing when
  the first block lies behind the twelve direct ones; otherwise they are exact
  (`Ext2File.ReadInodeBlocks`, `Ext2File.WriteInodeBlocks`).
* Byte-wise access from a block boundary is exact if and only if the whole range
  lies in the first twelve blocks, because the last block is transferred by a
  call of its own (`Ext2Bytes.ReadInodeBytes`, `Ext2Bytes.WriteInodeBytes`).
* A growth for which the volume has too few free blocks takes all of them; one
  for which the inode's tree has too little room takes what the tree can hold.
  Both return an error and give nothing back (`Ext2GrowFile.AllocateBlocks`).
* The block-list loader reads every table to its end, and tables made by a
  growth hold junk behind the file's end. It stores what it finds in a buffer of
  the file's length without looking at the buffer's end, and fails on a table it
  cannot read. For an addressable file it stays within the buffer and reads
  every table it opens if and only if the list has the file's length and all
  opened tables can be read; then the list is the file
  (`Ext2ListExact.LoadsExactly`). One junk entry is enough to store past the
  buffer (`Ext2JunkBehind.StoresPastBuffer`), and a list of the right length
  does not help when a junk entry names no block
  (`Ext2JunkBehind.RightLengthUnreadable`). The length test comes after the
  stores.
* Deleting an empty file fails, and on a volume without shared blocks deleting
  succeeds if and only if the file is not empty, its list stays within its
  length, and all tables opened for it can be read
  (`Ext2Runs.DeletionDecided`). Table blocks are not released
  (`Ext2Release.AllocateThenDelete`).
* Deleting the first entry of a directory leaves `rec_len` 0 there: every later
  scan stays at offset 0 (`Ext2Directory.DeleteEntry`,
  `Ext2Directory.StuckTilesNothing`). `ext2_initialize_directory` tiles the
  directory if and only if its size is 1024 bytes.
* An expansion that absorbs the heap's last segment loses 48 bytes, and every
  expansion adds 48 bytes too many to `totalSize` and `freeSize`; the
  conservation laws in `HeapAccounts.Books` account for both.
* A mapping translates back to its physical address if and only if that address
  is below 2^40 (`Paging.MapRefines`). `mprotect` with size 0 and an unaligned
  address still changes one page (`Paging.TouchedExactly`).
* `_duplicate_pd` copies three levels; the page tables themselves stay shared
  (`PageDuplication.SharedPageTable`). A map, unmap or change of permissions at
  a page of the child leaves the father as he was if and only if the page's
  top-level slot was not copied, the father had no page table for it, or the
  new entry is the old one (`SharedTables.DuplicateVisible`).
* `fat_file_read` at or behind the end of a file still returns one byte, so
  reading a and then b bytes equals reading a + b if and only if the first read
  stops short of the end or b is 0 (`FatFile.ReadInTwoParts`). `fat_file_jump`
  past the end of a chain reports success and moves only `cluster`.
* printf's '#' flag can drop digits that count, and its "0b" prefix cannot be
  read back. In bases 2 and 3 the 32-character buffer drops digits even without
  '#': a value reads back if and only if it is below the base to the power of
  the digits kept. Everything else reads back, for all widths and precisions
  (`ReadBack.WhatIsReadBack`, `ReadBack.ReadsBackExactly`,
  `ReadBack.PlainReadsBack`). A signed number
  reads back if and only if padding left room for the sign or the number is 0
  or -2^63 (`ReadBack.NegativeReadsBack`).
* `atou64` skips the letters before the first decimal digit of hexadecimal text
  (`Parsing.HexLettersLost`, `Parsing.HexSplit`), so up to 16 digits are read
  correctly if and only if the first one is decimal; longer text also when at
  least 16 digits follow the letters (`Parsing.HexExact`).
* A failed FAT32 sector read leaves junk in the buffer under the number of the
  sector cached before. No sector is lost by that, but a later read of that
  sector succeeds. A successful read is sure to deliver its sector if and only
  if that is not the cached one, or the last read that touched the buffer did
  not fail to fill it (`FatVolume.ReadsUnderFaults`).
* Two tasks created before either is added get the same pid; over a run of
  creations and additions pids stay distinct if and only if that never happens
  (`ScheduleOrder.PidsOverRun`). Those of the listed tasks stay distinct if and
  only if every task added was created after the addition before
  (`ScheduleOrder.ListedPidsOverRun`).

## Model

| member | source | states |
|---|---|---|
| Ext2Volume.NumberingInverse | kernel/src/vfs/generic/ext2/ext2_block.c:381-426 | the division deallocation uses gives back group and bit of every block number the allocator computes |
| Ext2Volume.NumberingOnto | kernel/src/vfs/generic/ext2/ext2_block.c:381-426 | every positive block number is the number of its own group and bit |
| Ext2Volume.NumberingCounts | kernel/src/vfs/generic/ext2/ext2_block.c:328-345 | the numbers handed out count from 1 through the bits of group 0, then of group 1, and so on |
| Ext2Volume.TakeValid | kernel/src/vfs/generic/ext2/ext2_block.c:297-353 | setting a zero bit with both counters keeps every group counter equal to its zero bits and the superblock counter equal to their sum |
| Ext2Volume.GiveValid | kernel/src/vfs/generic/ext2/ext2_block.c:381-426 | clearing a set bit with both counters keeps the counters exact |
| Ext2Alloc.AllocateBlock | kernel/src/vfs/generic/ext2/ext2_block.c:297-353 | hands out the least free block and nothing else changes; 0 if and only if no block is free |
| Ext2Alloc.DeallocateBlock | kernel/src/vfs/generic/ext2/ext2_block.c:381-426 | frees exactly the block; a block already free changes nothing and is reported |
| Ext2Alloc.ScanFindsLeast | kernel/src/vfs/generic/ext2/ext2_block.c:305-345 | the first zero bit of the scan is the least free block of the volume |
| Ext2Bitmap.BitInMemory | kernel/src/vfs/generic/ext2/ext2_block.c:305-345 | bit i of a bitmap block is bit i % 8 of byte i / 8 of its memory |
| Ext2Bitmap.TakenOnDisk | kernel/src/vfs/generic/ext2/ext2_block.c:326-345 | handing a block out adds 2^(i % 32) to word i / 32 of the group's bitmap, takes one from both counters, and changes no other word of the disk |
| Ext2Bitmap.GivenOnDisk | kernel/src/vfs/generic/ext2/ext2_block.c:385-424 | taking it back subtracts that power and gives one to both counters |
| Ext2Read.ReadDirect | kernel/src/vfs/generic/ext2/ext2_block.c:35-63 | reads the wanted entries in order up to the first 0, and leaves the skip count that remains |
| Ext2Read.ReadIndirect | kernel/src/vfs/generic/ext2/ext2_block.c:65-93 | reads exactly the leaves of the indirect tables, in order |
| Ext2Read.ReadDouble | kernel/src/vfs/generic/ext2/ext2_block.c:95-123 | the same for double indirect trees |
| Ext2Read.ReadTriple | kernel/src/vfs/generic/ext2/ext2_block.c:125-153 | the same for triple indirect trees |
| Ext2Write.WriteDirect | kernel/src/vfs/generic/ext2/ext2_block.c:174-202 | writes the buffers to the wanted entries in order up to the first 0 |
| Ext2Write.WriteIndirect | kernel/src/vfs/generic/ext2/ext2_block.c:204-232 | writes the buffers to exactly the leaves of the indirect tables |
| Ext2Write.WriteDouble | kernel/src/vfs/generic/ext2/ext2_block.c:234-262 | the same for double indirect trees |
| Ext2Write.WriteTriple | kernel/src/vfs/generic/ext2/ext2_block.c:264-292 | the same for triple indirect trees |
| Ext2File.ReadInodeBlocks | kernel/src/vfs/generic/ext2/ext2_block.c:584-627 | for skip < 12 the four walkers together deliver blocks skip..skip+count of the flat list; for skip >= 12 nothing |
| Ext2File.WriteInodeBlocks | kernel/src/vfs/generic/ext2/ext2_block.c:689-732 | for skip < 12 the buffers land in those blocks and nowhere else; for skip >= 12 nothing is written |
| Ext2File.WriteThenRead | kernel/src/vfs/generic/ext2/ext2_block.c:584-732 | reading a range just written returns the written data |
| Ext2File.WriteKeepsEarlierBlocks | kernel/src/vfs/generic/ext2/ext2_block.c:689-732 | the file's blocks before the range keep their contents |
| Ext2File.OtherFileUnchanged | kernel/src/vfs/generic/ext2/ext2_block.c:689-732 | a file that shares no block with the written one reads as before |
| Ext2Address.BlockAddress | kernel/src/vfs/generic/ext2/ext2_block.c:584-627 | block k of a file is slot k of the inode, or entry k - 12 of the indirect table, or found by two or three look-ups at the quotients and remainders by e and e^2 |
| Ext2Address.BlockOnDisk | kernel/src/vfs/generic/ext2/ext2_block.c:584-627 | block k of the data read is the disk block at the address of the file's block skip + k |
| Ext2Bytes.ReadInodeBytes | kernel/src/vfs/generic/ext2/ext2_block.c:629-687 | from a block boundary returns exactly the bytes asked for if the range lies in the first twelve blocks, and fails otherwise |
| Ext2Bytes.WriteInodeBytes | kernel/src/vfs/generic/ext2/ext2_block.c:734-812 | overlays exactly the bytes given, the rest of the last block kept, if the range lies in the first twelve blocks, and fails otherwise |
| Ext2Bytes.BytesWriteThenRead | kernel/src/vfs/generic/ext2/ext2_block.c:629-812 | the bytes read after a byte-wise write are those written, and behind them what was there |
| Ext2OnDisk.WordInMemory | kernel/src/vfs/generic/ext2/ext2_block.c:629-687 | word i of a block is the little-endian word at byte 4i of its memory |
| Ext2OnDisk.RangeByte | kernel/src/vfs/generic/ext2/ext2_block.c:629-687 | byte k * 4e + 4i + j of a range is byte j of word i of the file's block first + k |
| Ext2OnDisk.ByteRead | kernel/src/vfs/generic/ext2/ext2_block.c:629-687 | byte x delivered is byte x % 4 of word x % (4e) / 4 of the block in slot first + x / (4e) of the inode |
| Ext2OnDisk.ByteWritten | kernel/src/vfs/generic/ext2/ext2_block.c:734-812 | after a write that byte is byte x given, or what it was behind the data |
| Ext2OnDisk.OtherBlocksKept | kernel/src/vfs/generic/ext2/ext2_block.c:734-812 | every block in none of the written slots is as it was |
| Ext2Grow.AllocateIndirect | kernel/src/vfs/generic/ext2/ext2_block.c:428-467 | builds a table with min(n, e) fresh, pairwise distinct blocks if and only if enough blocks are free; otherwise none is left |
| Ext2Grow.AllocateDouble | kernel/src/vfs/generic/ext2/ext2_block.c:469-502 | the same for a double indirect tree, tables included |
| Ext2Grow.AllocateTriple | kernel/src/vfs/generic/ext2/ext2_block.c:504-537 | the same for a triple indirect tree, tables included |
| Ext2GrowFile.AllocateBlocks | kernel/src/vfs/generic/ext2/ext2_block.c:540-582 | the old blocks are followed by n new ones; exactly the new data and table blocks, all distinct, change from free to used; success if and only if there is room in the tree and on the volume; the old slots stay as they are on every path |
| Ext2GrowFile.RoomFormula | kernel/src/vfs/generic/ext2/ext2_block.c:540-582 | the room of a file with k direct blocks is 12 - k + e + e^2 + e^3 |
| Ext2List.LoadIndirect | kernel/src/vfs/generic/ext2/ext2_inode.c:421-447 | stores the table's entries up to the first 0 one behind the other, past the buffer's end if there are too many; fails if and only if the table cannot be read |
| Ext2List.LoadDouble | kernel/src/vfs/generic/ext2/ext2_inode.c:449-481 | stores the lists of the tables below up to the first one that cannot be read, and fails if and only if there is one |
| Ext2List.LoadTriple | kernel/src/vfs/generic/ext2/ext2_inode.c:483-515 | the same two levels below |
| Ext2List.LoadBlockList | kernel/src/vfs/generic/ext2/ext2_inode.c:517-593 | returns the loaded list, or null if and only if the file is empty, a table cannot be read, or the length is not the file's; stores past the buffer if and only if what it stores is longer than the file |
| Ext2ListExact.ListExact | kernel/src/vfs/generic/ext2/ext2_inode.c:421-593 | for every addressable file the entries listed, those of unreadable tables left out, start with the file's blocks, and are the file if and only if there are as many |
| Ext2ListExact.LoadsExactly | kernel/src/vfs/generic/ext2/ext2_inode.c:421-593 | for every addressable file no store passes the buffer and no table is unreadable if and only if the list has the file's length and all opened tables can be read; then it is the file |
| Ext2JunkBehind.StoresPastBuffer | kernel/src/vfs/generic/ext2/ext2_inode.c:435-443 | a sound file of 13 blocks with one junk entry: 14 words are stored in a buffer of 13 |
| Ext2JunkBehind.RightLengthUnreadable | kernel/src/vfs/generic/ext2/ext2_inode.c:469-474 | a sound file whose list has its length and which still cannot be deleted, because a junk entry names no block |
| Ext2Release.IndirectListExact | kernel/src/vfs/generic/ext2/ext2_inode.c:421-447 | for an indirect block the list is exact if and only if the table ends where the file does |
| Ext2Release.DeallocateBlocks | kernel/src/vfs/generic/ext2/ext2_block.c:355-379 | releases a list completely, and reports success, if and only if its blocks are distinct and in use |
| Ext2Release.DeleteFileBlocks | kernel/src/vfs/generic/ext2/ext2_inode.c:595-621 | succeeds if and only if all opened tables can be read and the list has the file's length, no repetition and used blocks only; then exactly these become free, and they are the blocks of the file if it is addressable; nothing changes if the list is not loaded |
| Ext2Release.FreeDeterminesBitmaps | kernel/src/vfs/generic/ext2/ext2_block.c:297-426 | two valid volumes of the same layout with the same free blocks have the same bitmaps and counters |
| Ext2Release.AllocateThenDelete | kernel/src/vfs/generic/ext2/ext2_inode.c:595-621 | growing an empty file and deleting it gives back everything but the table blocks, if and only if its list stays within its length and its opened tables can be read; up to 12 blocks that is so, and every bitmap and counter is as before |
| Ext2Ownership.GrowKeepsConsistent | kernel/src/vfs/generic/ext2/ext2_block.c:540-582 | growing one file keeps ownership exclusive and every other file, tables and contents, as it was |
| Ext2Ownership.WriteKeepsConsistent | kernel/src/vfs/generic/ext2/ext2_block.c:689-732 | writing one file keeps ownership exclusive, touches no other file, and is what a read returns |
| Ext2Ownership.FailedGrowKeepsConsistent | kernel/src/vfs/generic/ext2/ext2.c:262-315 | a failed growth, whose inode is not written, keeps ownership exclusive and touches no file, the one it was for included |
| Ext2Ownership.DeleteKeepsConsistent | kernel/src/vfs/generic/ext2/ext2_inode.c:595-621 | deleting one file keeps ownership exclusive and touches no other file |
| Ext2Runs.RunIsolates | kernel/src/vfs/generic/ext2/ext2_block.c:540-732 | over every run of successful and failed growths, writes and deletions, a file that no operation succeeds in changing keeps its blocks and reads the same |
| Ext2Runs.DeletionDecided | kernel/src/vfs/generic/ext2/ext2_inode.c:595-621 | when no block has two owners, deletion succeeds if and only if the file is not empty, the list stays within its length, and every table opened can be read |
| Ext2Directory.GetAllDirs | kernel/src/vfs/generic/ext2/ext2_dentry.c:209-236 | the two passes return exactly the live entries in directory order |
| Ext2Directory.CreateEntry | kernel/src/vfs/generic/ext2/ext2_dentry.c:366-441 | splits the last entry and the chain still tiles the directory; refused if and only if there is no entry or no room, then no byte changes |
| Ext2Directory.CreatedListing | kernel/src/vfs/generic/ext2/ext2_dentry.c:366-441 | the listing after create is the old one with the new entry last |
| Ext2Directory.RoomExactly | kernel/src/vfs/generic/ext2/ext2_dentry.c:379-420 | with both sizes rounded up to 4 there is room if and only if they fit into the last entry, to the byte; then its rec_len is split at exactly that size |
| Ext2Directory.EntryBytes | kernel/src/vfs/generic/ext2/ext2_dentry.c:418-438 | the bytes of an entry: inode, rec_len, name_len, type, and the name from byte 8 on |
| Ext2Directory.EntryPlace | kernel/src/vfs/generic/ext2/ext2_dentry.c:395-401 | each entry starts where the lengths of those before it end |
| Ext2Directory.DeleteEntry | kernel/src/vfs/generic/ext2/ext2_dentry.c:54-93 | the first entry with the inode is merged into the one before and the chain still tiles; below 2^16 bytes some list of entries tiles the directory afterwards if and only if the deleted entry was not the first one |
| Ext2Directory.DeletedListing | kernel/src/vfs/generic/ext2/ext2_dentry.c:54-84 | exactly the deleted entry leaves the listing |
| Ext2Directory.CreateThenDelete | kernel/src/vfs/generic/ext2/ext2_dentry.c:56-441 | creating an entry with an unused inode and deleting it restores the chain |
| Ext2Directory.StuckTilesNothing | kernel/src/vfs/generic/ext2/ext2_dentry.c:60-76 | after the first entry is deleted no list of entries tiles the directory |
| Ext2Directory.InitializeDirectory | kernel/src/vfs/generic/ext2/ext2_dentry.c:290-360 | lays out "." and ".." over 1024 bytes; they tile the directory if and only if it has that size |
| KernelHeap.Heap.constructor | kernel/src/memory/heap.c:19-56 | a zeroed heap structure becomes a well-formed one-page heap |
| KernelHeap.Heap.SplitSegment | kernel/src/memory/heap.c:94-112 | the upper part becomes a free segment of the wanted size, links mutual, or 0 if and only if the segment is too short |
| KernelHeap.Heap.Malloc | kernel/src/memory/heap.c:124-159 | a 16-byte aligned new block of the rounded size after at most two expansions; if some free segment has that length, or more than 48 bytes more, there is no expansion, and the block is the first such segment or its upper end; all other live blocks and their bytes stay; the list stays well formed with no two adjacent free segments |
| KernelHeap.FirstServing | kernel/src/memory/heap.c:138-158 | if any free segment has the size exactly or more than a header to spare, the first such one is taken, and none before it would have done |
| KernelHeap.ExpansionHelps | kernel/src/memory/heap.c:124-159 | every expansion lowers the number of expansions still needed, which is at most two |
| KernelHeap.Heap.MergeThisToNext | kernel/src/memory/heap.c:161-168 | the lower neighbour takes over the segment, links mutual, live payloads untouched |
| KernelHeap.Heap.MergeLastToThis | kernel/src/memory/heap.c:170-177 | the segment takes over its upper neighbour, links mutual, live payloads untouched |
| KernelHeap.Heap.Free | kernel/src/memory/heap.c:184-215 | exactly the block stops being live, free neighbours are merged, all other payloads keep their bytes; a bad or doubly freed pointer stops the heap |
| KernelHeap.FreeThenMalloc | kernel/src/memory/heap.c:124-215 | a block between used neighbours, freed and asked for again, comes back at the same address, and the heap is as before, unless an earlier segment serves |
| KernelHeap.Heap.Realloc | kernel/src/memory/heap.c:217-230 | the block moves, its first min(old, new) bytes move with it, all other payloads keep their bytes |
| KernelHeap.Heap.ExpandHeap | kernel/src/memory/heap.c:232-285 | whole pages are added below, as a new segment or to the free last one, and the exact books hold again |
| HeapAccounts.AllocBooks | kernel/src/memory/heap.c:138-150 | an allocation moves header and payload from the free to the used sum, totals unchanged |
| HeapAccounts.FreeBooks | kernel/src/memory/heap.c:184-215 | a release with all its merges moves them back |
| KernelHeap.ExpandBooks | kernel/src/memory/heap.c:260-284 | an expansion keeps totalSize = usedSize + freeSize and the laws with H(1 + E + A) and H * A |
| HeapAccounts.HeadersOutsidePayloads | kernel/src/memory/heap.c:94-285 | no header of the list lies in a live payload |
| HeapAccounts.LiveDisjoint | kernel/src/memory/heap.c:124-159 | two live blocks have disjoint payloads |
| Paging.AddressToMap | kernel/src/memory/paging.c:19-28 | bits 39-47, 30-38, 21-29 and 12-20 of the address are the four indices of its page |
| PageTables.SameWay | kernel/src/memory/paging.c:30-65 | pages that agree in their first indices reach the same table |
| PageTables.WriteLeaf | kernel/src/memory/paging.c:305-315 | one page-table entry belongs to one page: storing it changes no table and no other page |
| PageTables.LinkGrows | kernel/src/memory/paging.c:256-271 | hanging a zeroed table into an empty slot changes no page, keeps the tables a tree, and writes only fresh frames and tables on the way |
| Paging.Ram.MapMemory | kernel/src/memory/paging.c:241-315 | panics if and only if an address is unaligned; otherwise exactly one page changes, to the given frame and permissions; on its way missing tables are hung in present, writeable and open to the user, and every other entry on any way is as before |
| Paging.MapRefines | kernel/src/memory/paging.c:241-315 | afterwards the page translates to the address (if and only if it is below 2^40) with those permissions, every other page as before |
| Paging.MappedAccess | kernel/src/memory/paging.c:241-315 | user code reaches, writes and executes the page exactly as the flags say, as far as the tables that were there before allow it |
| Paging.NothingThere | kernel/src/memory/paging.c:241-315 | where all tables were missing nothing on the way refuses the user |
| WayEntries.AccessExactly | kernel/src/memory/paging.c:241-315 | a page's access is decided by its leaf and the entries on its way together |
| WayEntries.WaysMadeRights | kernel/src/memory/paging.c:256-303 | making tables for one page takes no right from any page and gives none |
| Paging.MappedExactly | kernel/src/memory/paging.h:42-52 | page_ppn's 28 bits hold an aligned address exactly below 2^40 |
| Paging.Ram.VirtualToPhysical | kernel/src/memory/paging.c:30-65 | the page's frame address, or 0 when some entry on the way is not present |
| Paging.Ram.UnmapMemory | kernel/src/memory/paging.c:428-461 | exactly one page loses its present bit; nothing happens when a table is missing |
| Paging.Ram.SetPagePerms | kernel/src/memory/paging.c:485-505 | the permissions of exactly one page change |
| Paging.Ram.GetPagePerms | kernel/src/memory/paging.c:531-553 | returns the encoded permissions of the page |
| Paging.PermsReadBack | kernel/src/memory/paging.c:485-553 | the permissions read back are the four bits set |
| Paging.Ram.Mprotect | kernel/src/memory/paging.c:575-584 | the permissions of exactly the touched pages change |
| Paging.TouchedExactly | kernel/src/memory/paging.c:575-584 | the touched pages are those that meet the address range, plus one for size 0 and an unaligned address |
| PageDuplication.DuplicatePd | kernel/src/memory/paging.c:77-121 | the copied slots translate as the father's through fresh tables on the upper three levels, whose entries differ in the frame number only; the others are empty; the father is unchanged; panics only without free pages |
| PageDuplication.DuplicateKernelPml4 | kernel/src/memory/paging.c:127-129 | the child has the father's kernel half, an empty user half, and shares no table through its user half |
| PageDuplication.SameAccess | kernel/src/memory/paging.c:77-121 | user code may do with a copied page in the child exactly what it may do in the father |
| SharedTables.StoreVisible | kernel/src/memory/paging.c:305-315 | an entry stored in the child's page table changes no page of the father if and only if the table is not the father's or the entry is the old one |
| SharedTables.DuplicateVisible | kernel/src/memory/paging.c:77-315 | a map, unmap or change of permissions in a duplicate leaves the father as he was if and only if the slot was not copied, the father had no page table there, or the entry is the old one |
| AddressSpaces.UserMapInvisible | kernel/src/memory/paging.c:241-315 | a change at a user page of a private child leaves the father's translation and the child's privacy intact |
| AddressSpaces.FatherUnchanged | kernel/src/memory/paging.c:77-315 | after any run of changes in the child's user half the father translates every page as at the start |
| AddressSpaces.UserHalf | kernel/src/memory/paging.c:127-129 | the slots that are not duplicated are the addresses below 2^47 |
| Loader.AllocateSegment | kernel/src/proc/loader.c:209-248 | every byte of the segment is the file's byte or 0; the user reaches its pages, writes and executes them as the flags say, as far as the entries on the way allow, and those allow what they did before; all other pages keep translation and data; a user segment leaves the father's translations, and the data behind them, as they were |
| Loader.LoadSegments | kernel/src/proc/loader.c:273-288 | all page-disjoint PT_LOAD segments are in memory at once, with these rights, and the father is unchanged |
| ProgramLoading.FatherKeepsData | kernel/src/proc/loader.c:273-288 | from the duplication on, loading user segments into the duplicate leaves all translations of the father and all data behind them as they were |
| ProgramLoading.ProgramRuns | kernel/src/proc/loader.c:209-288 | in a fresh duplicate the frame behind each address of a loaded user segment holds the file's byte or 0; user code reaches it, writes it if and only if PF_W is set, and executes it if and only if PF_X is |
| Scheduler.TaskScheduler.Schedule | kernel/src/sched/scheduler.c:34-82 | terminates with the chosen task executing, the previous one ready again; panics if and only if no task is ready or executing and the head is not idle |
| ScheduleOrder.ChooseNearest | kernel/src/sched/scheduler.c:41-56 | the scan finds the ready or executing task nearest in cyclic order, the current one last; nobody if and only if no task is ready or executing |
| ScheduleOrder.PassedOver | kernel/src/sched/scheduler.c:41-56 | no ready or executing task lies between the current and the chosen one; an executing task goes on when it is the only one that can |
| ScheduleOrder.ScheduledExecutes | kernel/src/sched/scheduler.c:70-77 | only the current task is executing afterwards |
| ScheduleOrder.RunExecutes | kernel/src/sched/scheduler.c:34-141 | over every run only the current task is executing |
| ScheduleOrder.SleeperNeverRuns | kernel/src/sched/scheduler.c:34-141 | over every run a task that is neither ready, executing nor idle does not become current until its state is set again |
| ScheduleOrder.KilledNeverRuns | kernel/src/sched/scheduler.c:34-307 | a killed or paused task is never chosen, and a schedule that does not panic takes it off the processor |
| ScheduleOrder.BoundedFairness | kernel/src/sched/scheduler.c:34-141 | with n tasks at first and k added, a ready task becomes current within n + k schedules |
| ScheduleOrder.NotBefore | kernel/src/sched/scheduler.c:34-82 | with all tasks ready or executing a task's turn does not come before its distance: the bound is exact |
| Scheduler.TaskScheduler.AddTask | kernel/src/sched/scheduler.c:123-141 | appends the task, links mutual, all others unchanged |
| Scheduler.TaskScheduler.GetTask | kernel/src/sched/scheduler.c:161-184 | the first task with the pid, null if and only if there is none |
| Scheduler.TaskScheduler.GetFreePid | kernel/src/sched/scheduler.c:211-220 | the least unused positive pid, found in at most n + 1 looks |
| Scheduler.TaskScheduler.Spawn | kernel/src/sched/scheduler.c:418-418 | create followed by add keeps pids distinct |
| ScheduleOrder.PidsOverRun | kernel/src/sched/scheduler.c:123-220 | over every run of creations and additions pids stay distinct if and only if no task was created while another was still to be added |
| ScheduleOrder.ListedPidsOverRun | kernel/src/sched/scheduler.c:123-220 | the pids of the listed tasks stay distinct if and only if every task added was created after the addition before |
| ScheduleOrder.AddKeepsDistinct | kernel/src/sched/scheduler.c:123-141 | adding keeps pids distinct if and only if the pid is unused at that moment |
| ScheduleOrder.CreateTwice | kernel/src/sched/scheduler.c:211-220 | two tasks created before either is added share a pid |
| Scheduler.TaskScheduler.BlockTask | kernel/src/sched/scheduler.c:84-90 | the current task takes the reason as its state and the next task runs |
| Scheduler.TaskScheduler.UnblockTask | kernel/src/sched/scheduler.c:92-98 | the task becomes ready and somebody runs; never a panic |
| Scheduler.TaskScheduler.KillTask | kernel/src/sched/scheduler.c:293-307 | the first task with the pid becomes a zombie, nothing else changes |
| FatVolume.Volume.Flush | kernel/src/vfs/generic/fat32/fat32.c:403-411 | never changes the logical volume; on success the disk holds it |
| FatVolume.Volume.Read | kernel/src/vfs/generic/fat32/fat32.c:384-400 | a successful read keeps the logical volume and caches its sector; after a failure the disk or the cache still holds it |
| FatVolume.ReadKeeps | kernel/src/vfs/generic/fat32/fat32.c:384-411 | each read, failed or not, loses no sector, and ends coherent exactly when it did not fill the buffer by a failed transfer |
| FatVolume.ReadsUnderFaults | kernel/src/vfs/generic/fat32/fat32.c:384-411 | over every run of reads with faults no sector is lost, and a later successful read is sure to be right if and only if it is of another sector than the cached one or the last read that touched the buffer did not fail to fill it |
| FatVolume.Volume.TableGet | kernel/src/vfs/generic/fat32/fat32.c:291-301 | returns the entry of the logical volume's FAT |
| FatVolume.Volume.TableSet | kernel/src/vfs/generic/fat32/fat32.c:304-320 | the logical volume gets exactly that entry, flushed or not |
| FatVolume.FatIsArray | kernel/src/vfs/generic/fat32/fat32.c:291-320 | a stored FAT entry reads back, every other entry and sector is as before |
| FatOnDisk.EntryOnDisk | kernel/src/vfs/generic/fat32/fat32.c:291-320 | FAT entry c is stored in bytes 4c to 4c + 3 of the FAT, the lowest first |
| FatOnDisk.EocExactly | kernel/src/vfs/generic/fat32/fat32.c:276-280 | a chain ends exactly at an entry whose low 28 bits are six digits F and a last one from 8 on |
| Bytes.Load32Back | kernel/src/util/string.c:321-373 | load32 inverts store32 |
| Bytes.Load32Bytes | kernel/src/util/string.c:321-373 | byte j of the word loaded is byte j of the buffer, the lowest first |
| FatFile.ClusterOfSector | kernel/src/vfs/generic/fat32/fat32.c:414-416 | fat_sect_to_clust inverts fat_clust_to_sect on every sector of a cluster |
| FatOnDisk.ClustersTile | kernel/src/vfs/generic/fat32/fat32.c:67-69 | cluster 2 starts at the first sector of the data area, and each cluster where the one before ends |
| FatOnDisk.ClustersApart | kernel/src/vfs/generic/fat32/fat32.c:67-69 | no two clusters have a sector in common |
| FatFile.ContentsAt | kernel/src/vfs/generic/fat32/fat32.c:67-69 | sector s, byte b of cluster number k is at its place in the concatenated clusters |
| FatOnDisk.ByteOnDisk | kernel/src/vfs/generic/fat32/fat32.c:67-69 | byte x of a file is byte x % 512 of sector dataLba + (c - 2) * clusterSize + x / 512 % clusterSize, c being cluster number x / 512 / clusterSize of its chain |
| FatFile.File.AddrResolve | kernel/src/vfs/generic/fat32/fat32.c:259-288 | without a disk fault the position moves to the next sector of the chain |
| FatFile.File.Jump | kernel/src/vfs/generic/fat32/fat32.c:1177-1209 | inside the chain the position is the offset; behind a complete chain only `cluster` moves |
| FatOnDisk.PositionOnDisk | kernel/src/vfs/generic/fat32/fat32.c:1177-1209 | cluster, sector and byte of a position in its offset |
| FatFile.File.Read | kernel/src/vfs/generic/fat32/fat32.c:1138-1168 | without a disk fault returns the slice of the concatenated clusters at the position and advances by its length |
| FatOnDisk.ReadOnDisk | kernel/src/vfs/generic/fat32/fat32.c:1138-1168 | each byte returned, directly on the disk |
| FatFile.ReadCountExact | kernel/src/vfs/generic/fat32/fat32.c:1146-1166 | the length is min(count, size - offset) if and only if the offset is before the end or nothing is asked for; at the end and behind it is 1 |
| FatFile.ReadInTwoParts | kernel/src/vfs/generic/fat32/fat32.c:1138-1168 | read(a) then read(b) gives read(a + b) if and only if b is 0 or the first read stops short of the end |
| Parsing.StrToULL | kernel/src/util/string.c:143-196 | value and end of the number for every text and base: saturated at 2^64 - 1, negated modulo 2^64 |
| NumberText.NumbersRead | kernel/src/util/string.c:143-196 | any number as it is written, with blanks, sign, prefix and whatever stands behind it: base 16 by prefix, 8 by a leading 0, 10 otherwise when none is asked for; the value is that of the digits |
| NumberText.DigitsInOrder | kernel/src/util/string.c:170-175 | letters of either case count on behind the decimal digits; printf writes the same digits, in the case asked for |
| NumberText.NoDigits | kernel/src/util/string.c:170-175 | exactly the characters that are no letter and no decimal digit end a number |
| Parsing.OverflowTest | kernel/src/util/string.c:169-184 | the cutoff test fires if and only if the next digit would pass 2^64 - 1 |
| Parsing.UnsignedDigits | kernel/src/util/string.c:143-196 | a digit string of any length gives min(value, 2^64 - 1) |
| Parsing.Atou64 | kernel/src/util/string.c:101-141 | the right-to-left sum is the left-to-right value modulo 2^64 |
| Parsing.DecimalStrings | kernel/src/util/string.c:122-139 | on decimal digits that is the value of the digit string |
| NumberText.AtouReads | kernel/src/util/string.c:101-141 | decimal text, and binary text behind "0b", is read digit for digit |
| NumberText.LooseExactly | kernel/src/util/string.c:125-135 | a character that is no hexadecimal digit counts as 0 |
| Parsing.HexSplit | kernel/src/util/string.c:101-141 | the value of hexadecimal digits is what is summed plus the value of the letters before the first decimal digit at their place |
| Parsing.HexExact | kernel/src/util/string.c:101-141 | hexadecimal text is read correctly modulo 2^64 if and only if its first digit is decimal or at least 16 digits follow the leading letters |
| Parsing.HexLettersLost | kernel/src/util/string.c:110-118 | "0xa1" is read as 1 |
| Printing.NtoaLongLong | kernel/src/util/printf.c:356-376 | prints padding, sign, prefix, zeros and digits as laid out, for all flags, widths and precisions |
| Printing.NtoaFormat | kernel/src/util/printf.c:277-327 | completes the digit buffer in place and emits the layout |
| Printing.OutRev | kernel/src/util/printf.c:249-273 | emits the buffer backwards, padded with spaces to the width |
| NumberText.DigitsAt | kernel/src/util/printf.c:356-376 | digit i is that of the base's i-th power, and there are as many digits as the value has |
| NumberText.ZeroDigits | kernel/src/util/printf.c:360-366 | 0 is printed as one digit, or as none when a precision is given, and never with a prefix |
| NumberText.PlainLayout | kernel/src/util/printf.c:249-327 | without '#', within the 32-character buffer: sign ('-', '+', blank or none), zeros up to the precision, or up to the width with '0', digits; spaces fill exactly the width, behind the number with '-' |
| NumberText.HashLayout | kernel/src/util/printf.c:296-312 | with '#', where no zeros are asked for and no place is given up, the prefix stands between sign and digits: "0x", "0X", "0b" or "0" |
| ReadBack.WhatIsReadBack | kernel/src/util/printf.c:249-376 | what strtoull returns on printf's output, for all values, bases, flags, widths and precisions |
| ReadBack.PlainReadsBack | kernel/src/util/printf.c:356-376 | without '#' every 64-bit value reads back in bases 4 to 36, octal, decimal and hexadecimal among them |
| ReadBack.NegativeReadsBack | kernel/src/util/printf.c:314-324 | signed values read back if and only if the sign found room, or the value is 0 or 2^63 |
| ReadBack.ReadsBackExactly | kernel/src/util/printf.c:296-312 | with '#' an unsigned value reads back if and only if no digit that counts was dropped and the prefix is whole |
| ReadBack.HashDropsDigits | kernel/src/util/printf.c:296-302 | printf("%#5x", 0x12345) prints a number that reads back as 0x345 |

## Left out

- ext2 transfers: a transfer of an addressable block succeeds. The failure codes 0xFFFFFFFE and 0xFFFFFFFD are positive as 64-bit numbers, so the source's `<= 0` tests do not see them; block counts are assumed below these codes.
- ext2 block writes: `ext2_write_block` passes sectors where `ext2_read_block` passes bytes; the model writes the whole block, as its callers expect.
- Ext2Bytes.ReadInodeBytes: a start inside a block, where the copies do not respect the count; the same for writing. A failed write may have written all blocks but the last.
- ext2 storage: kmalloc failure, 32-bit LBA arithmetic and the inode table itself; the block slots of an inode are an argument.
- ext2 walkers: the indirect walkers are entered with the skip counter at 0, as they are for skip < 12.
- Ext2GrowFile.AllocateBlocks: at most twelve direct blocks in use and empty table slots, because each table slot is allocated anew whatever it holds.
- Ext2List.LoadIndirect: started on block 0, where the source walks a buffer it never filled, nothing is claimed of the list; the same for the other two loaders.
- Ext2List.LoadBlockList: an inode whose list is short where its next table slot is empty. Nothing is claimed then beyond the length of a list returned. What a store past the buffer destroys is not part of this model either.
- Ext2Release.DeleteFileBlocks: inodes that open no empty table slot, as addressable files do not; listed blocks belong to a group and hold no bitmap. Shrinking a file is not part of this model.
- Ext2Runs.RunIsolates: growths of files with more than twelve blocks, as for AllocateBlocks; the blocks a failed growth took belong to nobody afterwards, as in the source.
- ext2 inode bitmaps, path lookup and inode deletion.
- Ext2Directory.CreateEntry: names of at most 255 bytes, the width of name_len; reading and writing the directory's bytes is the business of Ext2Bytes.
- Ext2Directory.DeleteEntry: in directories of 2^16 bytes and more, nothing is claimed when two lengths do not fit 16 bits together; the search for the inode number by path is an argument.
- KernelHeap.Heap.Malloc: requested pages are granted, and addresses and sizes do not pass 64 bits; enough address space must lie below the heap.
- KernelHeap.Heap.Free: a pointer whose header carries the signature by accident is not considered; it must be 0, lack the signature, or be a segment of the list.
- Stack allocation, calloc and heaps of other address spaces.
- Paging.Ram.MapMemory: enough free pages for the missing tables. Its check for NULL behind TO_KERNEL_MAP can never fire, so running out of pages is not modelled there.
- Paging.Ram.SetPagePerms: the tables on the way must be present, since the source follows entries without looking at the present bit; the same for reading permissions and for mprotect.
- Loader.AllocateSegment: four free frames for every page; the kernel's own view of a frame is the frame itself; parsing of the ELF header, stacks and entry-point checks are not part of this model.
- Huge pages, TLB, CR3 and the physical page bitmap: a requested page is any frame that is free.
- Scheduler.TaskScheduler.CreateTask: stacks, address space, files and context; Scheduler counters, signals, remove_task and SMP locking.
- FatFile.File.Read: the chain must be long enough for the bytes asked for, sectors have 512 bytes, FAT entries a zero top nibble, and sector 0 is not accessed; nothing is claimed once a disk transfer has failed.
- FAT allocation, directory search, long names, writing files.
- Printing.NtoaLongLong: output goes to a string without a length limit; floats and format strings are not part of this model.
- Parsing.Atou64: text with no decimal digit behind the prefix is read past its end by the source and excluded.
