# Verified model of the Antigravity OS kernel's stateful core

This project models the parts of the operating system that change memory and buffers in
place, and proves what they are for.  Methods on classes and arrays follow the C++ code
branch by branch and loop by loop.  Each is proved equal to a function on values, and the
lemmas beside these functions state the properties over all inputs and all runs.

| files | what they model |
|---|---|
| `Machine32`, `Bytes`, `CStrings` | 32-bit words, byte memory, NUL-terminated strings in arrays |
| `Paging`, `KernelMemory` | two-level page tables that live in the memory they translate, the bump heap under them, the boot sequence with the framebuffer loop |
| `FirstFitHeap`, `HeapCalls`, `InBandHeap`, `UserHeap`, `LegacyHeap` | an abstract first-fit heap; whole programs over it and the bytes they own; its block list in memory, header by header; the two allocators, with `calloc` and `realloc` |
| `FileTable`, `FileTableLaws`, `MountedTables`, `FileContents`, `SimpleFileSystem` | the 16-entry file table, its serialised form cut at 512 bytes, the file system as a map that survives remounting, what one write does in any mounted table, and what files and table hold, byte by byte |
| `Ext4Layout`, `Ext4Disk`, `VirtualFiles`, `Ext4` | directory and inode parsing, the linked list of virtual files, both together as a finite map |
| `Ext4Image`, `Ext4Mkfs` | disks with the structs of `ext4.h`, byte by byte, what is read from them, and putting any list of files on one |
| `TextEditor`, `EditorKeys`, `EditorView` | `cp` and `mv`, the editor's buffer as two halves of a text, runs of its keys, its display |
| `TerminalLayout`, `TerminalColors`, `TerminalScreen` | what a terminal stream and its colour sequences mean, and the 25 by 60 grid that shows it |
| `LineEditing`, `CommandLine`, `KeyStrokes` | the input line with history and completion, and runs of key strokes |
| `ShellWords`, `WorkingDirectory` | the in-place tokenizer, and `cd` |
| `MouseCursor`, `SnakeGame` | save-under drawing of the pointer, and the snake game |

The hardware walk that `PageWalk.Translate` defines is the one of section 4.3, "32-Bit
Paging", of the Intel 64 and IA-32 Architectures Software Developer's Manual, volume 3A.

A ghost field (`page`, `gap`, `blocks`, `nodes`, `files`, `picture`, `body`, `path`, `lines`)
is the abstract value of its object.  `Valid()` ties it to the real fields, and every method
says what becomes of it.

## Where the code does less than it says

Each of these is proved, with the exact condition under which the code does meet its purpose.

- The boot loop maps "enough pages to cover the whole screen" (src/kernel.cpp:67) for every
  page-aligned framebuffer, but can stop one page early for others (`FramebufferMapped`; for one row at
  0xE0000800 it does, `LastByteUnmapped`), and
  never stops for sizes above 0xFFFFF000 (`LoopEnds`).
- `MapMemory` masks the low bits of an address it never aligned.  Where it needs a new table, it is a
  one-page update exactly when no other present word stands in front of the new block in its frame
  (`MapMemory`).  A page-aligned bump pointer suffices, and the boot order keeps it aligned; one small
  allocation afterwards is enough to break it (`MapBehindWord`, `InitThenMapBehindWord`).
- A `kmalloc` request that wraps the 32-bit sum is granted beyond the heap (`BumpInHeap`); none of
  the boot sequence does.
- The table of 16 files is saved into one sector, so only slots 0..10 survive a remount
  (`SurvivesIff`); twelve writes lose a file (`TwelveWritesDoNotSurvive`).  A disk that is not recognised
  as garbage is mounted as it is, and a write changes its own file and no other exactly when its slot has
  a sector of its own (`MountUpdatesIff`, file by file `MountReadsBackIff` and `MountKeptIff`;
  `ZeroDiskAliases` is a disk on which it does not).
- `WriteFile` of the ext4 layer calls itself forever for a name that is only on the disk
  (`WriteReturnsIff`), and `DirExists` accepts every path.
- `mv` of a file onto itself deletes it, and content behind a NUL is lost (`MoveLaw`); of a file on the disk it
  is a copy (`DiskMoveLaw`).
- Completing a last word of more than 63 bytes can lose typed text (`TabExtends`, `TabLosesByte`).
- Words that are not spaced from a bare word before them are dropped or joined (`WordsIff`,
  `QuoteDropsBareWord`, `BareJoinsBareWord`); `WordsMerged` says what is left of any line.
- PWD follows the path only if the table of variables has room for it (`PwdFollows`).
- The editor misplaces the cursor behind text that does not fit 24 rows (`CursorRight`, `CursorAtTop`).
- Backspaces do not take back characters that were wrapped into another row (`EchoUndoneIff`).
- `memcpy` on overlapping ranges repeats bytes when the destination lies ahead (`CopiesIff`).
- A pointer drawn at x == -1 is never erased, because -1 also means "no pointer" (`DrawCursor`);
  the mouse driver clamps to non-negative positions (src/drivers/mouse.cpp:105-109).
- The snake's guard against turning back looks at the last key, not at the last move, and can be
  passed with two keys in one step (`NeckIff`, `OneTurnSafe`, `TurnGuardFails`).

## Model

| member | source | states |
|---|---|---|
| `KernelMemory.Kernel.MapMemory` | src/core/paging.cpp:6-33 | Every address on virt's page translates to phys's page with the same offset, and every other address translates, or faults, exactly as before, if and only if there was a table already or no present word stands in the new block's frame in front of the block (except where virt's entry goes); always so when heap_curr is page aligned. One page of heap is used exactly when the directory entry was absent, and the tables stay distinct and below heap_curr. The page's entry and a new table's entry have the Present, Read/Write and User bits, and with an aligned block every other page keeps them |
| `KernelMemory.Kernel.LinkTable` | src/core/paging.cpp:19-23 | The walk after clearing and linking the new block, page aligned or not: unchanged, except that what is left over in front of the block shows up as entries; the heap stays identity mapped |
| `KernelMemory.Kernel.ClearTable` | src/core/paging.cpp:20 | The loop clears exactly the block's 1024 words, no translation changes, and the heap it writes through stays identity mapped |
| `KernelMemory.Kernel.SetPage` | src/core/paging.cpp:26-29 | The store through the linked table remaps one page and touches no directory entry |
| `KernelMemory.TableAddressKept` | src/core/paging.cpp:22-26 | The address read back from a table's entry is the block's own if and only if the block is page aligned; MapMemory states what follows from it for translation |
| `KernelMemory.Kernel.MapBehindWord` | src/core/paging.cpp:6-33 | A run that MapMemory's condition excludes: from every boot state with fewer than 1000 tables, after one kmalloc(4) and a store of 7 in that word, mapping a page that needs a new table (and is not the first of its 4 MB) changes the translation of another page too |
| `KernelMemory.Kernel.InitThenMapBehindWord` | src/core/paging.cpp:6-73 | The same from power-on: HeapInit, Init, the allocation and the store, then MapMemory of any such page above 128 MB; afterwards the translation is not that of Init with this one page added |
| `PageWalk.SamePage` | src/core/paging.cpp:7-9 | Two addresses share a page exactly when both table indices agree |
| `PageWalk.SetEntry` | src/core/paging.cpp:26-29 | Writing one entry of a linked table is exactly a one-page remapping of the walk, although the tables live in the memory they translate |
| `PageWalk.SetEntryUser` | src/core/paging.cpp:26-29 | The entry that is written has the Present, Read/Write and User bits, and all other mapped pages keep theirs |
| `PageWalk.LinkBlockUser` | src/core/paging.cpp:19-23 | Linking a page-aligned table keeps the three bits of every mapped page |
| `PageWalk.AllUserPages` | src/core/paging.cpp:6-33 | Where all entries have the three bits, both entries on the way to any mapped address have them |
| `PageWalk.ScribbleFree` | src/core/paging.cpp:20 | Arbitrary writes from the first frame above the tables upwards are invisible to the walk |
| `PageWalk.LinkBlock` | src/core/paging.cpp:17-26 | Linking the frame in which a cleared block starts: its walk sees what is left over in front of the block and nothing else, all other walks stay, and the tables stay well formed |
| `PageWalk.LinkThenSet` | src/core/paging.cpp:17-29 | Linking a block and setting virt's entry is a one-page remapping if and only if nothing else is left over in front of the block |
| `PageWalk.CountAfterLink` | src/core/paging.cpp:17-23 | A directory entry becomes present at most once: the number of tables grows by one exactly when the entry was absent |
| `PageWalk.CountBelow` | src/core/paging.cpp:17-23 | While an entry is absent there are fewer than 1024 tables |
| `KernelMemory.Kernel.PagingInit` | src/core/paging.cpp:39-73 | After Init the whole address space translates as the identity below 128 MB and faults above; 32 tables exist, heap_curr is page aligned and paging is on |
| `KernelMemory.Kernel.FillTable` | src/core/paging.cpp:54-67 | One turn of the loop extends the identity by one 4 MB region and keeps the earlier ones |
| `KernelMemory.InitTranslates` | src/core/paging.cpp:39-73 | 32 filled tables translate every address as Init promises, and they are distinct frames |
| `KernelMemory.BootIdentity` | src/core/paging.cpp:26-29 | The kernel heap, hence every table's own address, stays identity mapped, so writes through table pointers with paging on reach the same words |
| `KernelMemory.InitUser` | src/core/paging.cpp:39-73 | Every entry that Init writes for a table or a page has the Present, Read/Write and User bits |
| `KernelMemory.Kernel.Kmalloc` | src/core/mm/kheap.cpp:14-23 | Exact result and bump pointer, including the rounding that is kept when memory runs out |
| `KernelMemory.BumpInHeap` | src/core/mm/kheap.cpp:14-23 | A block lies in the heap, aligned, if and only if the 32-bit sum does not wrap to an address below the heap's end |
| `KernelMemory.BlocksApart` | src/core/mm/kheap.cpp:14-23 | Over any run of requests that cannot wrap, no two blocks overlap and all of them are aligned and inside the heap |
| `KernelMemory.Kernel.HeapInit` | src/core/mm/kheap.cpp:8-12 | The bump allocator's statics, with the 32-bit sum |
| `KernelMemory.Kernel.Boot` | src/kernel.cpp:48-71 | For every framebuffer whose loop ends: the walk answers the identity on the first 128 MB and on the mapped frames and faults elsewhere, and at most 992 tables are added, so the 10 MB heap is never exhausted. Both entries of every mapped page have the Present, Read/Write and User bits |
| `KernelMemory.Kernel.MapFramebuffer` | src/kernel.cpp:69-71 | The loop invariant of the boot mapping: after each turn the translation is known for every address, going around at 4 GB |
| `KernelMemory.Kernel.MapFramebufferPage` | src/kernel.cpp:70 | One turn extends the mapped part by one page, with heap to spare |
| `KernelMemory.BootStep` | src/kernel.cpp:69-71 | A one-page remapping extends the boot translation by exactly one page |
| `KernelMemory.FramebufferMapped` | src/kernel.cpp:66-71 | Every framebuffer byte is identity mapped if and only if the buffer is empty, ends in the low 128 MB, or its page offsets add up to less than a page; so for every page-aligned address; LastByteUnmapped has addresses for which it does not hold |
| `KernelMemory.LastByteUnmapped` | src/kernel.cpp:66-71 | With 4096-byte rows at an address that is not page aligned the last byte faults, for every such address and height that end above 128 MB without wrapping; so for one row at 0xE0000800 |
| `KernelMemory.LoopEnds` | src/kernel.cpp:69 | The 32-bit loop counter reaches the size if and only if the size is at most 0xFFFFF000 |
| `UserHeap.Malloc` | programs/main.cpp:24-47 | In memory with in-band headers: the abstract first-fit result, exactly; a pointer not owned before, to at least size bytes, with all owned bytes unchanged; or null, with memory unchanged. Required: a free block fits, or the 32-bit sum is one that SbrkGrantsBlock shows to be harmless |
| `UserHeap.Search` | programs/main.cpp:26-33 | The walk over the in-band list ends, at the first free block that fits |
| `UserHeap.AddFirst` | programs/main.cpp:41-44 | The new header at the old break makes the list one block longer in front and damages no header and no payload |
| `UserHeap.Extend` | programs/main.cpp:36-46 | A refused break changes neither list nor memory; a granted one adds exactly one block |
| `UserHeap.RunOp` | programs/main.cpp:24-53 | One malloc, free or payload write on the memory: the heap, the answer, and every byte the program knows |
| `UserHeap.RunProgram` | programs/main.cpp:24-53 | Any run of malloc, valid free and in-bounds payload writes on the memory itself: the blocks tile [0x800000, break), the answers are those of the abstract heap, and every byte the program has written or knew stands where it was put |
| `UserHeap.RunAndKeep` | programs/main.cpp:24-53 | Over any run, a live pointer that is not freed holds exactly its bytes with the program's writes to it over them; unwritten, exactly its bytes |
| `UserHeap.RunOneSize` | programs/main.cpp:24-53 | If all requests of a run have one size s, the break ends at 0x800000 + (12 + s) times the peak number of live blocks, payload writes included |
| `HeapCalls.RunKeeps` | programs/main.cpp:24-53 | The same on values, for both libraries: no call touches the known bytes of a pointer that is not released, except the writes to it |
| `HeapCalls.ApplyOk` | programs/main.cpp:24-53 | After every call the owned pointers are exactly those of the blocks in use, and the blocks tile the range |
| `HeapCalls.ApplyAllIsRun` | programs/main.cpp:24-53 | A program's heap is the run of the allocations and releases its calls come down to |
| `UserHeap.Sbrk` | src/core/interrupts.cpp:165-179 | The break moves or is rolled back, and the answer is the old break or null |
| `UserHeap.SbrkGrantsBlock` | programs/main.cpp:36-37 | A granted break covers header and payload if and only if the 32-bit sum does not come back below the limit; then break and answer are exact |
| `InBandHeap.HeapMemory.Free` | programs/main.cpp:49-53 | The pointer is no longer owned, its block is free, and all other owned bytes stay |
| `InBandHeap.HeapMemory.Take` | programs/main.cpp:28-31 | Reusing a free block marks that block only |
| `InBandHeap.HeapMemory.Poke` | programs/main.cpp:24-53 | A write by the program inside a payload it owns changes that byte of that payload only, and no header |
| `InBandHeap.HeapMemory.constructor` | programs/main.cpp:22 | The empty heap |
| `InBandHeap.FlagWritten` | programs/main.cpp:29 | Writing one is_free byte changes one flag, keeps every header's size and link and every payload |
| `InBandHeap.PayloadWritten` | programs/main.cpp:46 | Writes inside one payload reach no header and no other payload |
| `InBandHeap.NodeInFront` | programs/main.cpp:41-44 | A node pushed in front keeps the rest of the in-band list |
| `FirstFitHeap.MallocMeaning` | programs/main.cpp:24-47 | Null if and only if no free block fits and the break cannot grow; otherwise the pointer is new, exactly it becomes live, its block is large enough, and the blocks still tile the range |
| `FirstFitHeap.PayloadsApart` | programs/main.cpp:24-53 | Different blocks, headers included, share no byte |
| `FirstFitHeap.StepWf` | programs/main.cpp:24-53 | Every malloc and free keeps the blocks tiling [base, break) in list order |
| `FirstFitHeap.StepFootprint` | programs/main.cpp:24-53 | With one request size, the number of blocks grows only when all blocks are live |
| `FirstFitHeap.Footprint` | programs/main.cpp:24-53 | For both allocators' list orders: with one request size the break stands exactly at the peak number of live blocks |
| `LegacyHeap.Malloc` | legacy_v1/sdk/stdlib.cpp:193-231 | Null for zero bytes, with the heap and all bytes unchanged; otherwise the abstract first-fit result for the size rounded to 8, in the in-band list that grows at its end: a new pointer to at least the rounded size, which is at least the request unless the rounding wraps. Required: a free block fits, or the new block ends within 32 bits |
| `LegacyHeap.Search` | legacy_v1/sdk/stdlib.cpp:201-212 | The walk finds the first fit, or the last node |
| `LegacyHeap.AddLast` | legacy_v1/sdk/stdlib.cpp:220-228 | Linking the new node behind the last one keeps every other header and every payload |
| `HeapCalls.Align8Covers` | legacy_v1/sdk/stdlib.cpp:197 | The rounded size covers the request if and only if size + 7 does not wrap |
| `HeapCalls.ResizeMeaning` | legacy_v1/sdk/stdlib.cpp:251-267 | realloc of an owned pointer frees it, leaves everything alone, or exchanges it for one the program did not own |
| `LegacyHeap.Memset` | legacy_v1/sdk/stdlib.cpp:137-143 | Exactly the addressed bytes are set |
| `LegacyHeap.Memcpy` | legacy_v1/sdk/stdlib.cpp:145-152 | The memory after the byte loop, whether or not the ranges overlap |
| `LegacyHeap.CopiesIff` | legacy_v1/sdk/stdlib.cpp:145-152 | The loop copies the source as it was if and only if the destination does not start inside the source, or the bytes in between repeat |
| `LegacyHeap.Calloc` | legacy_v1/sdk/stdlib.cpp:242-249 | The allocator's exact result for the 32-bit product; the payload starts with that many zeros and no other payload changes |
| `LegacyHeap.Realloc` | legacy_v1/sdk/stdlib.cpp:251-267 | Exact heap and answer; the payload keeps its old bytes in place or in a block large enough, no other payload changes, and a failure leaves the old block live |
| `LegacyHeap.CopyPayload` | legacy_v1/sdk/stdlib.cpp:263 | Copying between two live payloads changes only the destination's first bytes |
| `LegacyHeap.RunOp` | legacy_v1/sdk/stdlib.cpp:193-267 | One malloc, calloc, realloc, free or payload write on the memory: the heap, the answer, and every byte the program knows |
| `LegacyHeap.RunProgram` | legacy_v1/sdk/stdlib.cpp:193-267 | Any run of malloc, calloc, realloc, valid free and in-bounds payload writes on the memory itself: exact answers, and every byte the program has written, knew or was promised zero stands behind its pointer, also after realloc has moved it |
| `LegacyHeap.RunAndKeep` | legacy_v1/sdk/stdlib.cpp:193-267 | Over any run, a live pointer that is neither freed nor handed to realloc holds exactly its bytes with the program's writes to it over them |
| `LegacyHeap.RunOneSize` | legacy_v1/sdk/stdlib.cpp:193-267 | If all requests of a run round to one size s, the break ends at its start plus (12 + s) times the peak number of live blocks, calloc and realloc included |
| `InBandHeap.NodeBehind` | legacy_v1/sdk/stdlib.cpp:224-228 | A node linked behind the list keeps the list and all payloads, although a header of the old list is written |
| `SimpleFileSystem.SimpleFileSystem.WriteFile` | src/core/fs/sfs.cpp:68-103 | Table and disk afterwards, exactly as the abstract write has them, with the slot found by the two loops; FileContents.WriteAndRead says what the sector holds, byte by byte |
| `SimpleFileSystem.SimpleFileSystem.ReadFile` | src/core/fs/sfs.cpp:105-117 | The file's sector in the buffer and nothing behind it touched; or only out[0] cleared |
| `SimpleFileSystem.SimpleFileSystem.DeleteFile` | src/core/fs/sfs.cpp:119-129 | Table and disk afterwards, exactly |
| `SimpleFileSystem.SimpleFileSystem.FormatDisk` | src/core/fs/sfs.cpp:43-55 | Empty table, sector 10 + i for slot i, first sector of the table saved |
| `SimpleFileSystem.SimpleFileSystem.Init` | src/core/fs/sfs.cpp:20-41 | The mounted table, with the bytes past the 512-byte buffer as a parameter |
| `SimpleFileSystem.SimpleFileSystem.FindEntry` | src/core/fs/sfs.cpp:71-76 | The first used entry whose field holds the name |
| `SimpleFileSystem.StrEqual` | src/core/fs/sfs.cpp:12-15 | True exactly when the 32-byte field starts with the name and a NUL |
| `SimpleFileSystem.StrCopy` | src/core/fs/sfs.cpp:16-18 | Name and NUL, the rest of the field kept |
| `FileTableLaws.FormatLaw` | src/core/fs/sfs.cpp:43-55 | Format establishes the invariant and an empty map |
| `FileTableLaws.WriteLaw` | src/core/fs/sfs.cpp:68-103 | From Format on a write is a map update to the content cut or padded to 512 bytes, unless the name is new and 16 files are live, when it changes nothing |
| `FileTableLaws.ReadLaw` | src/core/fs/sfs.cpp:105-117 | A read answers what the map holds |
| `FileTableLaws.DeleteLaw` | src/core/fs/sfs.cpp:119-129 | A delete removes the name and no other file's bytes |
| `FileTableLaws.StoreLookup` | src/core/fs/sfs.cpp:68-103 | After a write the name is found in its slot and every other name where it was |
| `FileTableLaws.RoomIff` | src/core/fs/sfs.cpp:79-83 | A free slot exists if and only if fewer than 16 files are live |
| `FileTableLaws.SurvivesIff` | src/core/fs/sfs.cpp:20-41 | Every live file survives a remount, whatever follows the buffer, if and only if all live files are in slots 0..10 |
| `FileTableLaws.TwelveDoNotSurvive` | src/core/fs/sfs.cpp:20-41 | However they came about: with more than 11 live files, one of them is not answered after a remount with zeros behind the buffer |
| `FileTableLaws.TwelveWritesDoNotSurvive` | src/core/fs/sfs.cpp:20-103 | A run that shows it, from Format on any disk: twelve writes under twelve names, and a remount with zeros behind the buffer loses one of the files |
| `FileTableLaws.RemountAfterRun` | src/core/fs/sfs.cpp:20-103 | From a freshly formatted disk, after any run with at most 11 live files at a time, every live file reads back the same after Init |
| `FileTableLaws.StepKeepsLow` | src/core/fs/sfs.cpp:79-83 | Taking the lowest free slot keeps the files in slots 0..10 while there are at most 11 |
| `FileTableLaws.RunIsMap` | src/core/fs/sfs.cpp:68-129 | From Format on, every run of writes and deletes is the same run on a map of capacity 16 from names to 512-byte contents |
| `MountedTables.ReadAfterWrite` | src/core/fs/sfs.cpp:68-117 | In any table, formatted or not: what any name reads as after any write that finds a slot. The name written reads as the content and every other name as before, except through equal sectors and the table's own sector |
| `MountedTables.ReadsBackIff` | src/core/fs/sfs.cpp:68-117 | In any table, what is written to a file reads back, for all contents, if and only if its slot's sector is not the table's |
| `MountedTables.KeptIff` | src/core/fs/sfs.cpp:68-117 | In any table, another file keeps its content through the write, for all contents, if and only if its sector is not the one written or, where it names the table's own sector, the saved table does not change |
| `MountedTables.UpdatesIff` | src/core/fs/sfs.cpp:68-117 | In any table, writing to a name is an update of that name and of no other, for all contents, if and only if its slot's sector is not the table's and every other slot that is found under its own name is spared: it names another sector or, where it names the table's, the saved table does not change |
| `MountedTables.BothReadBackIff` | src/core/fs/sfs.cpp:68-117 | In any table, two new files both read back after both have been written, for all contents, if and only if their slots' sectors differ from the table's and from each other |
| `MountedTables.MountReadsBackIff` | src/core/fs/sfs.cpp:20-41 | After Init on any disk, what is written to a file reads back if and only if the stored table was garbage (first flags above 1 or first sector above 100000), and so was formatted, or the slot it names does not have the table's sector |
| `MountedTables.MountKeptIff` | src/core/fs/sfs.cpp:20-41 | After Init on any disk, a file that it holds keeps its content through writes to another name if and only if the stored table gives it a sector that the write spares |
| `MountedTables.MountUpdatesIff` | src/core/fs/sfs.cpp:20-41 | After Init on any disk, writing to a name is an update of that name and of no other if and only if the stored table was garbage or gives its slot a sector of its own |
| `MountedTables.MountBothReadBackIff` | src/core/fs/sfs.cpp:20-41 | After Init on any disk, two new files both read back if and only if the stored table was garbage or the sectors of its free slots are apart |
| `MountedTables.MountShapedIff` | src/core/fs/sfs.cpp:31-39 | A mounted table stays on the disk if and only if it was formatted for being garbage or all of its sectors exist |
| `MountedTables.ZeroDiskAliases` | src/core/fs/sfs.cpp:31-39 | In particular, on a zeroed disk Init does not format and a second file overwrites the first |
| `MountedTables.RemountsKeepMap` | src/core/fs/sfs.cpp:20-129 | Writes, deletes and any number of remounts in any order, from a disk whose files are in slots 0..10: every name reads as on a map that remounts do not change, as long as that map has at most 11 names and no used entry that a remount finds in slots 11..15 carries a name in use |
| `FileContents.WriteReads` | src/core/fs/sfs.cpp:68-117 | From Format on, a write that finds a slot makes byte k of the file content[k] for k below the content's length and 0 behind it, for all k below 512; so the string comes back whole if it has less than 512 bytes |
| `FileContents.RunReads` | src/core/fs/sfs.cpp:43-129 | After every run of writes and deletes from Format, every name reads, byte by byte, as the content last given for it, or is not there |
| `FileContents.RemountsRead` | src/core/fs/sfs.cpp:20-129 | The same with any number of remounts, under the conditions of RemountsKeepMap |
| `FileContents.WriteAndRead` | src/core/fs/sfs.cpp:68-117 | WriteFile and then ReadFile, on the table and the disk: the output buffer holds the content's bytes and zeros behind them |
| `FileContents.WriteMountAndRead` | src/core/fs/sfs.cpp:20-117 | WriteFile, Init and ReadFile: the same, for a file in one of the eleven slots that are saved, whatever follows the buffer of Init |
| `FileContents.TableOnDisk` | src/core/fs/sfs.h:5-10 | From Format on, the table's sector holds the first eleven entries as the struct has them: 32 bytes of name, sector, size and flags, each of four bytes with the lowest first |
| `FileContents.FormattedTable` | src/core/fs/sfs.cpp:43-55 | Format leaves empty names, the sectors 10 to 25 and no file in use, and changes no other sector |
| `FileContents.GarbageIs` | src/core/fs/sfs.cpp:31-34 | Init formats exactly when the first entry's bytes 40 to 43 give flags above 1 or its bytes 32 to 35 a sector above 100000 |
| `FileTable.SavedEntries` | src/core/fs/sfs.cpp:37-39 | Serialising the 704-byte table, cutting it at 512 bytes and parsing it back keeps entries 0..10 |
| `FileTable.LostEntries` | src/core/fs/sfs.cpp:37-39 | With zeros behind the buffer entries 11..15 come back unused |
| `FileTable.MatchesCStr` | src/core/fs/sfs.cpp:12-15 | The comparison decides equality with the field's C string |
| `Ext4.FileSystem.ReadFile` | src/core/fs/ext4.cpp:123-204 | The virtual file's content and a NUL, or the disk file's, or an empty string; the list is not changed |
| `Ext4.FileSystem.WriteFile` | src/core/fs/ext4.cpp:259-277 | For every name for which it returns: the list becomes the abstract write's, after at most one recursive call |
| `Ext4.FileSystem.Touch` | src/core/fs/ext4.cpp:237-257 | A new empty file in front exactly when neither disk listing nor list has the name |
| `Ext4.FileSystem.IsListed` | src/core/fs/ext4.cpp:239-245 | The scan of the file list finds the name exactly when the disk listing or the list of virtual files has it |
| `Ext4.FileSystem.Rm` | src/core/fs/ext4.cpp:219-235 | The first node with the name is unlinked, all others stay in order |
| `Ext4.FileSystem.Unlink` | src/core/fs/ext4.cpp:224-225 | Taking one node out of the chain, at the head or behind prev |
| `Ext4.FileSystem.FindNode` | src/core/fs/ext4.cpp:221-232 | The first node with the name and the one before it; the walk ends |
| `Ext4.FileSystem.GetFileList` | src/core/fs/ext4.cpp:296-384 | The list has exactly as many elements as were counted: the disk's entries, then the virtual files, in order |
| `Ext4.FileSystem.FillFiles` | src/core/fs/ext4.cpp:372-380 | The second pass over the list stays within the counted size |
| `Ext4.FileSystem.DirExists` | src/core/fs/ext4.cpp:279-290 | Always true, so MkDir never adds a directory |
| `Ext4.ReadFromDisk` | src/core/fs/ext4.cpp:139-203 | The content read through root inode, directory block and file inode, and a NUL |
| `Ext4Disk.CountEntries` | src/core/fs/ext4.cpp:314-322 | The counting pass counts exactly the listed entries |
| `Ext4Disk.FillEntries` | src/core/fs/ext4.cpp:350-367 | The filling pass writes exactly as many entries as were counted, each with name and type |
| `Ext4Disk.FindOnDisk` | src/core/fs/ext4.cpp:153-175 | The inode number of the first listed entry with the name |
| `Ext4Disk.ReadName` | src/core/fs/ext4.cpp:157-161 | The entry's name, cut at 63 bytes and at its first NUL |
| `Ext4Disk.ReadBlock` | src/core/fs/ext4.cpp:14-21 | A block is its sectors in order |
| `Ext4Disk.ReadInode` | src/core/fs/ext4.cpp:177-193 | The direct blocks before the first null pointer, cut at the inode's size, and a NUL behind them |
| `Ext4Layout.BlockIsContiguous` | src/core/fs/ext4.cpp:14-21 | Byte k of block b is byte b * block_size + k of the disk |
| `Ext4Image.MountAndRead` | src/core/fs/ext4.cpp:123-204 | ReadFile on any mounted disk that has the structs of ext4.h in place, field by field (root inode at byte 256 of the table, directory records, inode number n at byte 128 * (n - 1), block pointers, data blocks): the first file that is not deleted and has the name gives its own bytes, as far as its size, its twelve direct pointers and its first null pointer let it, and a NUL follows |
| `Ext4Image.MountAndList` | src/core/fs/ext4.cpp:296-384 | GetFileList on such a disk: the files that are not deleted, in order, as directories exactly when the type byte is 2; entries with inode 0 are passed over, and the list ends with the directory's size, its first block or an entry of length 0 |
| `Ext4Image.ImageRead` | src/core/fs/ext4.cpp:123-204 | The same for the content that the model attributes to a name: the bytes that stand in the blocks to which the inode record points |
| `Ext4Image.ImageListed` | src/core/fs/ext4.cpp:296-384 | The listing of such a disk is the directory's records that have an inode number and a name |
| `Ext4Image.ImageMissing` | src/core/fs/ext4.cpp:123-204 | A name that no record has, or only a deleted one, reads as an empty file |
| `Ext4Mkfs.MakesImage` | src/core/fs/ext4.h:51-79 | Any list of files, deleted ones included, that has room (one block of inodes, one of directory records, twelve of data for each file) can be put on a disk in this form |
| `Ext4Mkfs.MadeReads` | src/core/fs/ext4.cpp:123-204 | Whatever list of files is put on a disk, each name of at most 63 bytes stands for its own file's data |
| `Ext4Mkfs.MakeAndRead` | src/core/fs/ext4.cpp:123-204 | Put any such list of files on a disk, mount it and read one by its name of at most 63 bytes: the buffer holds the file's own data and a NUL |
| `Ext4Mkfs.MakeAndList` | src/core/fs/ext4.cpp:296-384 | Put any such list of files on a disk, mount it and list it: the names that are not deleted, in order, with their types |
| `Ext4Mkfs.FilesListed` | src/core/fs/ext4.cpp:372-380 | Behind the disk's entries stand the virtual files, with the sizes of their data |
| `VirtualFiles.WriteReturnsIff` | src/core/fs/ext4.cpp:259-277 | WriteFile returns if and only if the name is a virtual file or is not listed on the disk; otherwise it calls itself forever |
| `VirtualFiles.WriteLaw` | src/core/fs/ext4.cpp:259-277 | A write is a map update that keeps names unique and off the disk |
| `VirtualFiles.TouchLaw` | src/core/fs/ext4.cpp:237-257 | Touch adds an empty file under a new name and nothing else |
| `VirtualFiles.RemoveLaw` | src/core/fs/ext4.cpp:219-235 | Rm removes the name and keeps all other files |
| `VirtualFiles.RunIsMap` | src/core/fs/ext4.cpp:206-277 | In every run of returning calls the list stays free of duplicates and of disk names, and is the same run on a finite map |
| `VirtualFiles.MoveLaw` | src/core/shell/shell.cpp:416-420 | mv leaves the source's content under the new name if and only if the names differ and the content has no NUL; the map afterwards in every case |
| `VirtualFiles.DiskMoveLaw` | src/core/shell/shell.cpp:416-420 | mv of a file that is only on the disk is a copy: the new name is added and no file goes away |
| `FileCommands.CmdCp` | src/core/shell/shell.cpp:397-414 | The destination gets the C string in front of what the source reads as |
| `FileCommands.CmdMv` | src/core/shell/shell.cpp:416-420 | The copy, then the removal of the source |
| `TerminalScreen.Screen.PutChar` | src/core/gui/TerminalWindow.cpp:56-105 | One character is one step of the unbounded layout, and the grid looks like the last 25 rows of it, with exactly their colours until something has been erased |
| `TerminalScreen.Screen.Print` | src/core/gui/TerminalWindow.cpp:107-109 | Printing a string extends the layout by the whole string |
| `TerminalScreen.Screen.Scroll` | src/core/gui/TerminalWindow.cpp:42-54 | Every row moves up by one, the last one is blank |
| `TerminalScreen.Screen.LineBreak` | src/core/gui/TerminalWindow.cpp:91-101 | A new row, with a scroll exactly when the grid is full |
| `TerminalScreen.Screen.Clear` | src/core/gui/TerminalWindow.cpp:22-33 | A blank grid, an empty page and a reset parser, except for the unfinished number |
| `TerminalScreen.Screen.ClearAndPrint` | src/core/gui/TerminalWindow.cpp:22-109 | After Clear and any stream the grid shows the last 25 rows of the declaratively defined page, and the cursor is in bounds |
| `TerminalScreen.Screen.CursorInBounds` | src/core/gui/TerminalWindow.cpp:96-104 | In every state that clearing, printing and the echo of backspaces reach, the row is below 25 and the column at most 60 (for the editor's drawing see EditorView.CursorOnGrid) |
| `TerminalScreen.Screen.EchoErase` | src/core/gui/TerminalWindow.cpp:184-187 | The echo of a backspace takes the last character off the page's last row, if there is one, and the grid still looks like the last 25 rows of the page |
| `TerminalLayout.PutSplit` | src/core/gui/TerminalWindow.cpp:56-109 | Splitting the stream anywhere, even inside an escape, changes nothing |
| `TerminalLayout.PutAllMakesPage` | src/core/gui/TerminalWindow.cpp:56-109 | Byte-by-byte layout equals the page: interpret escapes, cut at newlines, cut paragraphs into rows of 60 |
| `TerminalLayout.RowsSnoc` | src/core/gui/TerminalWindow.cpp:97-104 | Deferred wrapping: adding a cell to a paragraph is adding it to the last row, or to a new row when that one is full |
| `TerminalColors.SequenceSelects` | src/core/gui/TerminalWindow.cpp:56-88 | Without the parser: ESC, a bracket, any decimal numbers below 2^31 with semicolons between them and an m add nothing to the page and select the colour of the last number (0 and 37 white, 30 to 36 black, red, green, yellow, blue, magenta, cyan); any other number keeps the colour |
| `TerminalColors.ColoredText` | src/core/gui/TerminalWindow.cpp:56-109 | Any stream of such sequences with text behind them puts exactly this text on the page, each piece in the colour selected in front of it |
| `TerminalColors.ClearAndPrintColored` | src/core/gui/TerminalWindow.cpp:22-109 | Printed on a cleared screen, it is what the last 25 rows show |
| `TerminalColors.PlainText` | src/core/gui/TerminalWindow.cpp:90-105 | A stream without ESC is all text in the current colour |
| `TerminalColors.EscapedByte` | src/core/gui/TerminalWindow.cpp:58-63 | ESC and a byte that is no bracket: the byte is text |
| `TerminalColors.BrokenSequence` | src/core/gui/TerminalWindow.cpp:63-88 | A byte that does not belong in a sequence ends it and is text in the old colour |
| `TerminalLayout.EchoUndoneIff` | src/core/gui/TerminalWindow.cpp:176-225 | As many backspaces as typed characters restore the page if and only if the characters fit the row they were started in; wrapped ones stay on the screen |
| `CommandLine.CommandLine.OnKeyDown` | src/core/gui/TerminalWindow.cpp:140-228 | One key is one step of the line editor, with cursor at the end, at most 120 bytes and zeros behind them |
| `CommandLine.CommandLine.Execute` | src/core/gui/TerminalWindow.cpp:111-138 | A non-empty line is remembered and the prompt is empty again |
| `CommandLine.CommandLine.Remember` | src/core/gui/TerminalWindow.cpp:117-125 | The ten-row array holds the last ten lines in order |
| `CommandLine.CommandLine.KeyUp` | src/core/gui/TerminalWindow.cpp:193-204 | Erasing and retyping shows the previous line |
| `CommandLine.CommandLine.KeyDown` | src/core/gui/TerminalWindow.cpp:207-218 | Erasing and retyping shows the next line, or an empty one |
| `CommandLine.CommandLine.Complete` | src/core/gui/TerminalWindow.cpp:147-170 | The prefix is replaced by the first name that starts with it |
| `CommandLine.CommandLine.FindPrefix` | src/core/gui/TerminalWindow.cpp:150-157 | The first 63 bytes of the last word |
| `CommandLine.Suggest` | src/core/shell/shell.cpp:78-106 | The first of the names that starts with the prefix, or none |
| `CommandLine.StartsWith` | src/utils/StringHelpers.h:30-37 | Equality up to n bytes decides being a prefix |
| `LineEditing.TabExtends` | src/core/gui/TerminalWindow.cpp:147-170 | Completion keeps what was typed if and only if the last word has at most 63 bytes, nothing is suggested, or the word's first 63 bytes are its last 63 |
| `LineEditing.TabLosesByte` | src/core/gui/TerminalWindow.cpp:147-170 | An input that shows it: 63 equal bytes and another one, completed by the name of these 63, become the first byte and the name; the other byte is gone |
| `LineEditing.TabText` | src/core/gui/TerminalWindow.cpp:147-170 | The new line is the old one with the prefix replaced, cut at 120 bytes |
| `LineEditing.UpRecalls` | src/core/gui/TerminalWindow.cpp:193-204 | On a fresh prompt Up k times yields the k-th most recent line, clamped to the oldest |
| `LineEditing.DownUndoesUp` | src/core/gui/TerminalWindow.cpp:193-218 | As many Down keys lead back to an empty line |
| `LineEditing.HistoryKeepsLast` | src/core/gui/TerminalWindow.cpp:111-228 | Over every run of keys the history is the last ten non-empty lines entered, and the line invariant holds |
| `KeyStrokes.UpAfterEnter` | src/core/gui/TerminalWindow.cpp:110-205 | Over runs of scancodes and characters: after any run that ends by entering a non-empty line the prompt is empty, and k Up keys (0x48) bring back the k-th last of all lines entered, down to the oldest of the last ten |
| `KeyStrokes.UpAfterLines` | src/core/gui/TerminalWindow.cpp:110-229 | Type any lines, each with Enter (0x1C), and press Up k times: the k-th last line, or the oldest of the last ten |
| `KeyStrokes.DownAfterLines` | src/core/gui/TerminalWindow.cpp:186-218 | Then Down (0x50) j times: the line that k - j Up keys bring back, or the empty prompt |
| `KeyStrokes.EmptyEnter` | src/core/gui/TerminalWindow.cpp:110-114 | Enter on an empty line changes nothing |
| `KeyStrokes.TypingAppends` | src/core/gui/TerminalWindow.cpp:221-227 | Typed characters are appended, up to 120 bytes |
| `KeyStrokes.FullLineRefuses` | src/core/gui/TerminalWindow.cpp:221-227 | A line of 120 bytes takes no more |
| `KeyStrokes.BackspacesCut` | src/core/gui/TerminalWindow.cpp:173-190 | n backspaces (0x0E) take away the last n characters |
| `KeyStrokes.TabCompletes` | src/core/gui/TerminalWindow.cpp:147-170 | Tab (0x0F) puts the first name that starts with the last word, of at most 63 bytes, in its place |
| `KeyStrokes.TabFindsNone` | src/core/gui/TerminalWindow.cpp:147-170 | Tab changes nothing behind a space, on an empty line, or where no name starts with the last word |
| `KeyStrokes.Play` | src/core/gui/TerminalWindow.cpp:139-229 | Any run of strokes on the input buffer and the history array |
| `KeyStrokes.TypeLinesAndUp` | src/core/gui/TerminalWindow.cpp:110-229 | The same theorem on the buffers: after typing lines and k Up keys the input buffer holds the recalled line |
| `ShellWords.Tokenize` | src/core/shell/shell.cpp:129-178 | The argv pointers into the buffer stand for the scanned words, and NULs written later never alter an earlier token |
| `ShellWords.EndWord` | src/core/shell/shell.cpp:149-153 | One in-place NUL ends the current word and no other |
| `ShellWords.WordsOfLine` | src/core/shell/shell.cpp:129-178 | The tokenizer inverts quoting: any line of bare and quoted words whose first 17 are well spaced gives back its first 16 words |
| `ShellWords.WordsIff` | src/core/shell/shell.cpp:129-178 | For every line of at most 16 proper words, the tokenizer gives back exactly these words if and only if a space follows every bare word but the last |
| `ShellWords.WordsMerged` | src/core/shell/shell.cpp:129-178 | What every line of proper words gives, of any length and spacing: the first 16 of the words left after fusing, wherever a space is missing behind a bare word, this word with a bare one behind it, and dropping it in front of a quoted one |
| `ShellWords.FeedCount` | src/core/shell/shell.cpp:144-178 | A line never has more words than were typed, and has fewer when a space is missing behind a bare word |
| `ShellWords.QuoteDropsBareWord` | src/core/shell/shell.cpp:147-160 | In particular a bare word directly before a quoted one is lost |
| `ShellWords.BareJoinsBareWord` | src/core/shell/shell.cpp:166-177 | And a bare word directly before a bare one is joined to it |
| `WorkingDirectory.Shell.CmdCd` | src/core/shell/shell.cpp:239-302 | Path and environment afterwards for every argument, in the 256-byte buffer |
| `WorkingDirectory.Shell.GoUp` | src/core/shell/shell.cpp:263-286 | The path up to its last slash, but never above the root |
| `WorkingDirectory.Shell.Append` | src/core/shell/shell.cpp:289-298 | The path, a slash unless there is one, and the name |
| `WorkingDirectory.Shell.SetCwd` | src/core/shell/shell.cpp:45-50 | The path in its buffer, and the environment after setting PWD to it, full table included |
| `WorkingDirectory.Shell.SetEnv` | src/core/shell/shell.cpp:56-69 | The table of 16 variables afterwards: updated, extended, or unchanged when it is full |
| `WorkingDirectory.SetGet` | src/core/shell/shell.cpp:56-76 | A variable reads back its new value if and only if it existed or the table had room |
| `WorkingDirectory.SetOther` | src/core/shell/shell.cpp:56-76 | Setting a variable keeps the value of every other one |
| `WorkingDirectory.PwdFollows` | src/core/shell/shell.cpp:239-302 | Once PWD holds the path it holds it after every cd; otherwise the cd makes it so if and only if the table has room |
| `WorkingDirectory.Shell.RunCd` | src/core/shell/shell.cpp:239-302 | Any run of cd on the buffers, over paths of at most 63 bytes, ends with the path of the directory the moves lead to |
| `WorkingDirectory.CdMoves` | src/core/shell/shell.cpp:239-302 | Each form of cd moves the stack of directory names as its argument says |
| `WorkingDirectory.AlongMoves` | src/core/shell/shell.cpp:289-298 | A relative path of several names goes down all of them |
| `WorkingDirectory.AbsoluteIsPath` | src/core/shell/shell.cpp:299-301 | An absolute argument becomes the path as it is, wherever one was |
| `WorkingDirectory.ToMoves` | src/core/shell/shell.cpp:299-301 | The path of a directory leads to that directory |
| `WorkingDirectory.CwdIsStack` | src/core/shell/shell.cpp:239-302 | Over every run cwd is the slash-joined stack of names |
| `WorkingDirectory.ThereAndBack` | src/core/shell/shell.cpp:239-302 | cd name then cd .. restores the path exactly |
| `WorkingDirectory.PathOfInjective` | src/core/shell/shell.cpp:239-302 | Different stacks have different paths, so the path determines the directory |
| `CStrings.StrLen` | src/utils/StringHelpers.h:7-9 | The length of the string in the buffer |
| `CStrings.StrCpy` | src/utils/StringHelpers.h:11-14 | The string and its NUL, the rest of the buffer kept |
| `CStrings.StrCat` | src/utils/StringHelpers.h:46-50 | The concatenation |
| `CStrings.StrEqual` | src/utils/StringHelpers.h:25-28 | A zero result decides equality |
| `TextEditor.Editor.OnKeyDown` | src/core/shell/Editor.cpp:106-153 | One key is one step of the pair (text before the cursor, text behind it), with the buffer NUL-terminated |
| `TextEditor.Editor.Insert` | src/core/shell/Editor.cpp:142-152 | The shift loop opens a gap without losing a byte; a full buffer refuses |
| `TextEditor.Editor.Erase` | src/core/shell/Editor.cpp:128-138 | The shift loop closes the gap |
| `TextEditor.Editor.Start` | src/core/shell/Editor.cpp:15-34 | The text is the C string the file reads as, with the cursor in front |
| `TextEditor.Editor.Save` | src/core/shell/Editor.cpp:88-94 | The file gets exactly the text |
| `TextEditor.Editor.SaveAndReopen` | src/core/shell/Editor.cpp:15-104 | Save, quit and reopen gives back exactly the saved text |
| `TextEditing.PressAllProper` | src/core/shell/Editor.cpp:83-154 | Over every key sequence the text is NUL-free and at most 10239 bytes |
| `TextEditing.BackspaceUndoesTyping` | src/core/shell/Editor.cpp:128-152 | As many backspaces as typed characters restore the text and the cursor, wherever the cursor was |
| `TextEditing.TypingInserts` | src/core/shell/Editor.cpp:142-152 | A typed string ends up between the two halves |
| `EditorKeys.LeftThenType` | src/core/shell/Editor.cpp:107-153 | Over scancodes: k times Left or Up (0x4B, 0x48) and typing put the typed text k characters further to the front, at the start of the text if there are fewer |
| `EditorKeys.RightThenType` | src/core/shell/Editor.cpp:107-153 | k times Right or Down (0x4D, 0x50) and typing put it k characters further back, at the end if there are fewer |
| `EditorKeys.ErasesAt` | src/core/shell/Editor.cpp:128-139 | n backspaces (0x0E) take away the n characters in front of the cursor, or all of them if there are fewer |
| `EditorKeys.LeftAndType` | src/core/shell/Editor.cpp:107-153 | The same on the buffer and its size |
| `EditorKeys.FullRefuses` | src/core/shell/Editor.cpp:142-143 | A text of 10239 bytes takes no more |
| `EditorView.Render` | src/core/shell/Editor.cpp:36-81 | The 24 text rows show the beginning of the text's page in the terminal's own layout, row 24 is the status line, and the cursor is where CursorAt says |
| `EditorView.DrawChar` | src/core/shell/Editor.cpp:43-64 | Drawing one character is one step of the terminal's layout, and never leaves the grid |
| `EditorView.CursorRight` | src/core/shell/Editor.cpp:45-73 | The cursor stands behind the text before it if and only if that text fits 24 rows, or is the whole text and fits without its last character |
| `EditorView.CursorAtTop` | src/core/shell/Editor.cpp:45-73 | Texts that show it: in front of the last of more than 24 line breaks, from row 24 on, the cursor is put at the top left |
| `EditorView.ShownIff` | src/core/shell/Editor.cpp:65 | Drawing stops behind the first beginning of the text that does not fit 24 rows |
| `EditorView.CursorOnGrid` | src/core/shell/Editor.cpp:72-73 | The cursor is always on the grid |
| `EditorView.ShownIsEnough` | src/core/shell/Editor.cpp:65 | Stopping at the overflow loses nothing that would be visible |
| `MouseCursor.Console.DrawCursor` | src/core/graphics/console.cpp:30-61 | From any state: the screen is the picture with the pointer at the new position only, clipped at the edges; the picture is unchanged unless x is the sentinel -1, when the pointer stays in it |
| `MouseCursor.Console.MoveThrough` | src/core/graphics/console.cpp:30-61 | After any moves, overlapping or clipped, the screen is the original picture with the pointer at the last position |
| `MouseCursor.Console.EraseOld` | src/core/graphics/console.cpp:31-38 | Restoring brings back the whole picture |
| `MouseCursor.Console.Save` | src/core/graphics/console.cpp:40-45 | The saved pixels are those under the new box |
| `MouseCursor.Console.DrawPointer` | src/core/graphics/console.cpp:47-56 | Border and fill are drawn, the rest shows through |
| `MouseCursor.Console.CellDrawn` | src/core/graphics/console.cpp:45-56 | Cell (fx, fy) of the shape falls on pixel (x + fx, y + fy): black for 1, white for 2, and the picture's pixel for anything else |
| `MouseCursor.Console.BesideKept` | src/core/graphics/console.cpp:45-56 | Beside the 12 by 18 pixels of the shape the picture is kept |
| `MouseCursor.Console.GetPixel` | src/core/graphics/console.cpp:25-28 | The pixel, or 0 off the screen |
| `MouseCursor.Console.PutPixel` | src/core/graphics/console.cpp:97-100 | One pixel changes, or none off the screen |
| `SnakeGame.Snake.UpdateGame` | programs.cpp:137-196 | One call on the arrays is one step of the game, and the invariant holds |
| `SnakeGame.Snake.Shift` | programs.cpp:189-195 | Shifting in place yields the new head in front of the body, with or without the last cell |
| `SnakeGame.Snake.Hits` | programs.cpp:174-179 | The scan decides whether the cell is on the body |
| `SnakeGame.Snake.Init` | programs.cpp:113-135 | The starting game, on a grid at least 3 wide and 5 high |
| `SnakeRules.AdvanceAvoids` | programs.cpp:189-195 | Moving or growing into a free neighbouring cell keeps the path self-avoiding and connected |
| `SnakeRules.AppleInside` | programs.cpp:108-111 | The apple is inside the border for every seed |
| `SnakeRules.UpdateInv` | programs.cpp:137-196 | Moves, growth, game over and restart keep the invariant, and between steps the neck is where the head came from |
| `SnakeRules.PlayInv` | programs.cpp:103-196 | Over every run the body is a self-avoiding path of 4-neighbours in the grid, its length is min(3 + score/10, 99), and the apple is inside the border |
| `SnakeRules.ScoreGrows` | programs.cpp:180-187 | Within a game length and score never drop, and the score grows only by reaching the apple |
| `SnakeRules.StepUpdates` | programs.cpp:143-155 | The calls up to the next step move the snake once, in the direction their keys lead to |
| `SnakeRules.KeySteers` | programs.cpp:143-196 | W, A, S and D move the head up, left, down and right in the next step, except straight back: onto a free cell, growing and scoring 10 on the apple, or ending the game off the grid or on the body |
| `SnakeRules.GoesOn` | programs.cpp:143-196 | Without such a key, or with one straight back, the head goes on in its direction |
| `SnakeRules.Restarts` | programs.cpp:137-142 | Any call after the end of a game starts a new one: three cells downwards from the centre, heading up, score 0 |
| `SnakeRules.NeckIff` | programs.cpp:143-179 | For all five keys of a step, from every state a run can reach: the head moves onto the neck, which ends the game, if and only if the keys together turn the direction to its opposite |
| `SnakeRules.OneTurnSafe` | programs.cpp:145-150 | With at most one key that changes the direction the snake never turns back on itself |
| `SnakeRules.TurnGuardFails` | programs.cpp:145-150 | From every reachable step boundary, a key to the side and the key back within one step end the game |

## Left out

- Port I/O, ATA polling, TLB flushes, CR0 and CR3 writes and inline assembly: the disk is an array of sectors, and paging is a pure walk over memory.
- Callers that ignore a null from `kmalloc`: `MapMemory` requires room for a table (the boot sequence is proved to have it), and the file system and the editor take allocation as successful.
- Mask and shift operations on page-table words are written as division and remainder; buffers that are filled once and then only read (a virtual file's data, a disk sector) are sequence values.
- The user heap is treated on its own: the kernel heap's address range overlaps it, and no claim is made about the two together.
- UserHeap.Malloc: a request for which the kernel grants a break that is too short is not accepted; `SbrkGrantsBlock` says exactly which these are.
- UserHeap.Extend: the same requests.
- InBandHeap.HeapMemory.Free: the pointer is null or live, as the C library demands of its callers; the code marks whatever stands before it.
- UserHeap.RunProgram: programs that write only inside the blocks they own.
- LegacyHeap.Malloc: the kernel's side of system call 11 is not part of the repository; it is modelled as a break below a limit that answers -1 when it cannot grow. A request that no free block fits and whose block would end above 2^32 is not accepted.
- LegacyHeap.Realloc: the pointer is null or live, as the C library demands, and a size above the block's can be rounded up without wrapping, and a free block fits or the new one ends within 32 bits.
- LegacyHeap.Calloc: the 32-bit product can be rounded up without wrapping, and a free block fits or the new one ends within 32 bits.
- LegacyHeap.RunProgram: programs that write only inside the blocks they own, with requests that do not wrap.
- MountedTables.RemountsKeepMap: only mounts that find existing sectors in every entry, as `Shaped` asks; the code looks at the sectors of files it is asked for.
- SimpleFileSystem.SimpleFileSystem.WriteFile: names have at most 31 bytes, because longer ones overflow the field; the messages on the console are not modelled.
- Ext4.FileSystem.ReadFile: directory blocks and inodes must lie on the disk and in the first inode-table block, where the code looks for them; nothing is claimed about real ext4 images (extents, inode size, block groups).
- Ext4.FileSystem.WriteFile: only names for which it returns are accepted, since no run of the others ends; `WriteReturnsIff` says which these are.
- Ext4.FileSystem.DirExists: the part of `MkDir` behind the test is never reached and is not modelled.
- `Ext4::Init`, `Ext4::Ls` and `SimpleFileSystem::List`: superblock parsing and printing.
- WorkingDirectory.Shell.CmdCd: old and new path have at most 63 bytes, since the copy in the environment has a 64-byte field; variables hold values, not buffers.
- WorkingDirectory.Shell.GoUp: the same bound.
- WorkingDirectory.Shell.Append: the same bound.
- WorkingDirectory.Shell.SetCwd: the same bound, for the copy in the environment.
- WorkingDirectory.Shell.SetEnv: keys of at most 31 bytes and values of at most 63, because longer ones overflow their fields.
- WorkingDirectory.Shell.RunCd: every path on the way has at most 63 bytes.
- ShellWords.WordsIff: lines of more than 16 words, whose first 16 words can come back although one was lost (`WordsMerged` gives the words of these lines too).
- ShellWords.Tokenize: what the commands do with argv, except for `cd`, `cp` and `mv`, and the command registry.
- CommandLine.CommandLine.Execute: the command itself and what it prints.
- CommandLine.CommandLine.OnKeyDown: the echo on the screen (`PutChar`, `EchoErase`) and the commands' output are not tied to the line; commands and files are one list of names.
- TextEditor.Editor.OnKeyDown: the Ctrl key, the switch between shell and editor and the redrawing after each key; `EditorView.Render` models the drawing itself.
- TerminalScreen.Screen.CursorInBounds: printing while the editor is open, whose drawing does not go through the page.
- TerminalScreen.Screen.PutChar: an escape's number that passes 2^31 is taken to wrap.
- MouseCursor.Console.MoveThrough: no other drawing happens between the calls; the window system redraws the screen between frames, and nothing is claimed across that.
- SnakeGame.Snake.Init: grids less than 3 wide or 5 high, on which the apple has no place inside the border or the start does not fit (at width or height 2 the code divides by zero).
- CStrings.StrEqual: the sign of `strcmp`; all callers here test for zero.
- SnakeGame.Snake.UpdateGame: the score is unbounded, and drawing and logging are left out.
- Window painting, fonts, the start menu, interrupt and descriptor tables, keyboard and mouse packet decoding, and the legacy programs: user interface, hardware effects or facts that each follow from one body.
