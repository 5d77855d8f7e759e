# Verification of the kernel's state machines

This project models the parts of a 32-bit kernel that hosts DOS programs whose
behaviour spans many calls: the FAT12/16/32 file layer, the DOS memory arena with
EXEC and EXIT, the kernel heap and the DMA allocator, the DPMI host and the
keyboard driver. Verify it with `dafny verify dfyconfig.toml`
(Dafny 4.11).

| module | models |
|---|---|
| Numbers | machine words and arithmetic shared by all modules |
| FatLayout, FatChains, FatData, FatVolume, FatFiles, FatSession | table entries and their copies, cluster chains, the volume with its open files, what reads and writes mean for file contents, and runs on a volume as runs on a map of files |
| FatNames, DirSearch | 8.3 names and directory search |
| Tiles | memory cut into blocks: first fit, splitting, merging |
| KernelHeap | the heap's linked list of headers |
| McbBlocks, McbArena | DOS memory control blocks as a list and as headers in memory, INT 21h AH=48h-4Ch |
| PmFrames, RmCalls | exception, interrupt and real-mode call frames of protected-mode clients |
| DpmiMemory | reservations and committed pages of a client |
| Ldt, VtSlots, Terminal | descriptors, text terminals and their resources, and the terminal's screen |
| Dma | the bitmap allocator for device memory |
| Keyboard, KeyRing | modifier state and key rings |

Code that updates memory in place is a class whose methods carry the loops of the
original. Each method is proved against a specification on values, and the results
below are about these specifications or about whole runs of the methods.

## What the code does not keep

Some promises hold only under a condition. The code is modelled as it is; the
condition is part of the theorem.

- A read is clamped to the file size only if position + count stays below 2^32 (`ClampIff`, `ClampFails`), and, in a file whose space is below 4 GB and not full, only then leaves the position inside the file (`PositionInsideIff`); the size after a write follows the size law only below 4 GB (`SizeLawIff`, `SizeLawFails`).
- Deleting an open file leaves a handle whose clusters are free (`DeleteFile`).
- Requests just below 2^32 round to zero: the heap grants an empty block (`LargeEnoughIff`, `HugeRequestGetsNothing`), AX=0501h reserves one page (`LongEnoughIff`).
- AH=4Ah trusts any paragraph that starts with 'M' or 'Z' (`ForgedIff`, `ForgedHeaderBreaksChain`); a failed AH=48h reports 0 when no block is free, yet a request for 0 fails too (`AllocSucceedsIff`).
- EXIT frees every block that carries the child's PSP, so a block that already did before EXEC is lost (`ExecRunExit`, `ExitTakesParentsBlock`).
- EXEC does not check that PSP, image and relocations fit the block it grants, for EXE or COM (`ImageFitsIff`, `ImageTooLarge`, `FlatImageTooLarge`). When they hit a header the chain can be gone (`PspBreaksChain`, `ImageBreaksChain`); the arena survives exactly when they leave every header as it is (`ExecChainIff`, `ExecRunExit`).
- A 16-bit client's outer exception return misreads its frame once a nested one has returned (`Outer16Misread`); the return without a record needs a stack pointer below 64 KB or a 32-bit stack (`FallbackFindsFrameIff`).
- The real-mode call saves CS and SS in 16 bits (`RoundTripIff`, `HighHalfLost`); the condition holds whenever the high halves of the pushed CS and SS are zero, as in a frame the processor pushes zero-extended. Its sentinel resumes the lowest client with a call pending (`ResumesLowest`).
- Committing a page whose page table is missing halts the kernel when only one frame is left (`Commit`); pages committed outside reservations are never given back (`ReleaseClient`).
- The DMA allocator aligns relative to the region's base, which is itself aligned to 2 MB only (`AlignedIff`).
- A scancode sequence injected in two pieces loses a prefix at the cut (`CutIff`).

## Model

| member | source | states |
|---|---|---|
| FatLayout.MountIsWf | src/kernel/fat.c:551-579 | Mounting a sane boot sector gives tables, root directory and data area that lie in order inside the volume, and no cluster number of any of the three types reads as an end mark |
| FatLayout.AreasAdjacent | src/kernel/fat.c:551-579 | The first table copy follows the reserved sectors, each copy the one before, the root directory the last copy, cluster 2 the root directory (FAT32: the tables), each cluster the one before; less than a cluster is left; the type changes at 4085 and 65525 clusters |
| FatLayout.EndMarksIff | src/kernel/fat.c:232-239 | The end marks are the eight highest values of an entry |
| FatLayout.EntryLayout12 | src/kernel/fat.c:117-157 | Two neighbouring FAT12 entries are the 24 bits of three consecutive bytes, lowest first |
| FatLayout.EntryLayout16 | src/kernel/fat.c:117-157 | A FAT16 entry is two bytes at twice its number, lowest first |
| FatLayout.EntryLayout32 | src/kernel/fat.c:117-157 | A FAT32 entry and its reserved top nibble are four bytes at four times its number, lowest first |
| FatLayout.ClusterSectorInjective | src/kernel/fat.c:112-114 | Different data sectors of different clusters are different disk sectors |
| FatLayout.EntryReadsBack | src/kernel/fat.c:117-229 | A stored table entry reads back, in every copy, as the value cut to the entry width, also when a FAT12 entry spans two sectors |
| FatLayout.OtherEntryKept | src/kernel/fat.c:160-229 | Every other entry keeps its value, including the FAT12 neighbour that shares a byte |
| FatLayout.PutEffect | src/kernel/fat.c:160-229 | A table write changes one entry of the decoded table, keeps all copies equal and keeps every FAT32 top nibble |
| FatLayout.TableIgnoresData | src/kernel/fat.c:112-157 | Writes outside the tables change neither the decoded table nor the equality of its copies |
| FatChains.ChainAcyclic | src/kernel/fat.c:232-239 | A chain that ends in an end mark visits no cluster twice |
| FatChains.FreeNotOwned | src/kernel/fat.c:242-253 | A cluster whose entry is zero is on no file's chain |
| FatChains.AllocKeeps | src/kernel/fat.c:242-253 | Marking a free cluster leaves all chains sound and takes exactly that cluster from the free set |
| FatChains.LinkKeeps | src/kernel/fat.c:959-969 | Linking an unowned end-marked cluster behind a file's last one keeps all chains end-marked and disjoint |
| FatChains.FreeRankDrops | src/kernel/fat.c:1456-1460 | Each turn of the freeing loop lowers a measure, on any table contents, cyclic ones included |
| FatChains.FreeWalkSound | src/kernel/fat.c:1456-1460 | On any table whose links stay in range the freeing loop only zeroes entries it can reach, and zeroes the first |
| FatChains.FreeWalkOnChain | src/kernel/fat.c:1456-1460 | On a file's chain the freeing loop zeroes exactly the entries of the chain |
| FatChains.DeleteKeeps | src/kernel/fat.c:1452-1460 | Deleting a file keeps the other chains sound and raises the number of free clusters by exactly the chain's length |
| FatChains.StepKeeps | src/kernel/fat.c:242-253 | Creation, extension and deletion keep the files well formed and lose no cluster |
| FatChains.RunKeepsFiles | src/kernel/fat.c:242-253 | Over every run of creations, extensions and deletions all chains stay end-marked, disjoint and so acyclic, and the clusters free or owned, never both, stay the same set |
| FatData.OverlayIsSplice | src/kernel/fat.c:974-1002 | Overlaying part of one sector of a file is splicing the bytes into the file's space, and touches no sector of another file |
| FatData.ByteInCluster | src/kernel/fat.c:974-1002 | Byte r of the q-th cluster of a chain is byte q clusters + r of the file, in sector r / 512 of that cluster |
| FatData.DisjointDataKept | src/kernel/fat.c:974-1002 | A file that shares no cluster with the written one keeps its bytes |
| FatData.GrowthKeepsData | src/kernel/fat.c:1004-1012 | Growing a file's chain keeps the bytes it already had |
| FatVolume.Volume.constructor | src/kernel/fat.c:500-612 | A mounted volume with sound files and no open handle |
| FatVolume.Volume.ReadEntry | src/kernel/fat.c:117-157 | Returns the entry of the first table copy, for all three types |
| FatVolume.Volume.WriteEntry | src/kernel/fat.c:160-229 | Puts the value into every table copy byte by byte and changes no sector outside the tables |
| FatVolume.Volume.AllocCluster | src/kernel/fat.c:242-253 | Takes the lowest free cluster and marks it as a chain end; 0 exactly when none is free, and then nothing changed |
| FatVolume.Volume.ExtendChain | src/kernel/fat.c:1004-1012 | Appends the lowest free cluster to a file's chain, or reports a full volume and changes nothing |
| FatVolume.Volume.NextOrExtend | src/kernel/fat.c:959-969 | Follows a link, extending the chain at its end; 0 only on a full volume |
| FatVolume.Volume.CreateFile | src/kernel/fat.c:700-706 | The allocation of a new file: a fresh one-cluster chain, or nothing when the volume is full |
| FatVolume.Volume.OpenFile | src/kernel/fat.c:828-847 | Takes the lowest free handle, or returns -1 and changes nothing when all are in use |
| FatVolume.Volume.CloseFile | src/kernel/fat.c:850-875 | Releases the handle, or returns -1 for one that is not open |
| FatVolume.Volume.FreeChain | src/kernel/fat.c:1456-1460 | The freeing loop of delete and rmdir equals its specification on any table whose links stay inside a closed set, and terminates |
| FatVolume.Volume.DeleteFile | src/kernel/fat.c:1452-1460 | Deleting a file frees exactly its clusters, raises the free count by the chain's length and keeps tables and chains sound; every open handle stays good exactly when none is open on the file |
| FatVolume.Volume.CountFreeClusters | src/kernel/fat.c:627-636 | Counts the free clusters |
| FatVolume.Volume.Write | src/kernel/fat.c:938-1017 | On a writable handle, writing k bytes at position p splices exactly these bytes into the file's space, moves the position by k, sets the size to the larger of old size and p + k (below 4 GB, k > 0), grows only this file's chain and touches only its own sectors and the tables; it stops short only on a transfer error or a full volume; on any other handle it returns -1 and changes nothing |
| FatVolume.Volume.Seek | src/kernel/fat.c:1019-1025 | Moves the position to the offset clamped to the size |
| FatVolume.Volume.Read | src/kernel/fat.c:877-936 | Returns the bytes of the file's space from the position on, as many as the clamp allows, and advances the position by that number; without faults the position stays inside the file exactly when position and count do not wrap or nothing lies behind the file's end |
| FatVolume.PositionInsideIff | src/kernel/fat.c:887-889 | The exact condition for a read to leave the position inside the file, for any position, count, size and space |
| FatVolume.ReadCountIs | src/kernel/fat.c:887-889 | A read asks for its count, or for size less position modulo 2^32 when position plus count modulo 2^32 is above the size |
| FatFiles.WriteSplicesContents | src/kernel/fat.c:938-1017 | Below 4 GB the contents after a write are the old contents with the written bytes spliced in at the position |
| FatFiles.SizeLawIff | src/kernel/fat.c:996-998 | The size law holds exactly for writes that end below 4 GB |
| FatFiles.SizeLawFails | src/kernel/fat.c:938-1017 | Two bytes appended to a file of 2^32 - 1 bytes leave position 1 and a size that is not the law's |
| FatFiles.OtherFilesKept | src/kernel/fat.c:938-1017 | No other file's chain or bytes change by a write |
| FatFiles.ForeignSectorsKept | src/kernel/fat.c:938-1017 | Sectors outside the tables and the written file keep their bytes |
| FatFiles.ClampIff | src/kernel/fat.c:887-889 | A read returns the rest of the file at most exactly when position plus count stays below 2^32 or nothing is allocated behind the file's end |
| FatFiles.ClampFails | src/kernel/fat.c:877-936 | Ten bytes written, a seek to 5 and a read of 2^32 - 1 bytes return everything to the end of the last cluster and leave the position behind the file's end |
| FatFiles.WriteSeekRead | src/kernel/fat.c:938-1025 | Writing, seeking back and reading returns the written bytes |
| FatSession.AfterWf | src/kernel/fat.c:828-1025 | Whatever an act may return, the map of files stays well formed: every handle's position is inside its size and its size inside the file's bytes |
| FatSession.MountedHolds | src/kernel/fat.c:500-612 | Any sound volume without open files holds the map of its files' contents |
| FatSession.StoresKept | src/kernel/fat.c:160-229 | Table writes change no file's bytes |
| FatSession.WriteStores | src/kernel/fat.c:938-1017 | A write through a handle splices its data into the bytes of its file in the map; every other file keeps its own |
| FatSession.UntouchedKept | src/kernel/fat.c:828-1025 | No run changes a file that none of its acts writes or removes, however many handles are used |
| FatSession.ReadsLastWrite | src/kernel/fat.c:877-1017 | In any run, a read inside a range that was written, through any handle, returns the bytes last written there, unless the file was touched in between |
| FatSession.CloseThenOpen | src/kernel/fat.c:828-875 | In any run, the size a writable handle had when it was closed is the size the next open of the file starts with, at position 0, until another such close or a removal |
| FatSession.HandleKept | src/kernel/fat.c:828-1025 | An act changes no handle that it does not name |
| FatSession.StoreAndFetch | src/kernel/fat.c:828-1017 | Creating a file, writing any bytes, closing, opening and reading returns exactly the bytes written |
| FatSession.Do | src/kernel/fat.c:828-1025 | One act on the volume is the act on a map from files to bytes: a new file is empty, a write splices, a read returns the slice, a removal drops one key, and all other files keep their bytes |
| FatSession.Session | src/kernel/fat.c:828-1025 | Any run of creating, opening, closing, seeking, guarded reading, writing and deleting closed files refines the run on the map: every read returns what the map holds, the volume holds the resulting map, table copies are equal and chains sound |
| FatNames.NameTo83 | src/kernel/fat.c:260-288 | Builds the padded upper-case form of a dotted name |
| FatNames.NameFrom83 | src/kernel/fat.c:291-306 | Builds the dotted form of a padded name |
| FatNames.PackedBytes | src/kernel/fat.c:260-288 | The padded form byte by byte: upper-case characters up to the first dot or NUL and behind that dot, cut and padded |
| FatNames.DottedBytes | src/kernel/fat.c:291-306 | The dotted form: the bytes before the first space of each part |
| FatNames.RoundTripIff | src/kernel/fat.c:260-306 | A padded name survives the way through its dotted form exactly when it is upper case, padded only at the ends and without a dot in its first eight bytes |
| DirSearch.MatchPattern | src/kernel/fat.c:1070-1077 | Compares a name with a pattern in which a question mark matches any byte |
| DirSearch.ScanSector | src/kernel/fat.c:1079-1109 | Finds the first hit among the sector's entries not skipped, up to the end mark |
| DirSearch.ScanRoot | src/kernel/fat.c:321-336 | Reading the fixed root directory finds the first hit at or behind the skip index, unless a sector cannot be read |
| DirSearch.ScanChain | src/kernel/fat.c:338-357 | Reading a directory along its cluster chain finds the first hit at or behind the skip index, unless a sector cannot be read |
| DirSearch.EntryBytes | src/kernel/fat.c:321-357 | Where name, attributes, size and first cluster of an entry lie, byte by byte |
| DirSearch.ListingAt | src/kernel/fat.c:321-357 | A directory is its entries in order, sixteen a sector, up to the first whose name starts with a zero byte |
| DirSearch.RootLbasAt | src/kernel/fat.c:321-336 | The fixed root directory is consecutive sectors from its first |
| DirSearch.ChainLbasAt | src/kernel/fat.c:338-357 | Sector s of the q-th cluster of a directory's chain is its q clusters + s-th sector |
| DirSearch.Search.Next | src/kernel/fat.c:1177-1201 | Each search call reports the next hit of the directory on the volume and moves the saved index behind it; without one, or on a failed read, nothing moves; a hit is no deleted entry, no long-name piece, no label, and matches the pattern |
| DirSearch.Search.All | src/kernel/fat.c:1134-1201 | Repeated calls without a failed read report exactly the entries at the found indices, then stop |
| DirSearch.FoundAll | src/kernel/fat.c:1079-1201 | Repeated calls find every live matching entry exactly once, in directory order, and nothing else |
| Tiles.CoalesceIsFill | src/kernel/heap.c:84-93 | Merging adjacent free blocks gives the layout that depends on the blocks in use alone: these at their places and one free block in every gap |
| Tiles.CoalesceTiled | src/kernel/heap.c:84-93 | Merging keeps the blocks tiling memory, leaves no two free neighbours and keeps every block in use |
| Tiles.CoalesceAfterMerge | src/kernel/heap.c:86-90 | Merging one pair first does not change the merged result |
| Tiles.FirstFit | src/kernel/heap.c:50-51 | The first free block that is large enough, or none |
| Tiles.LargestFree | src/kernel/dos.c:1602-1604 | The size of the largest free block |
| KernelHeap.Heap.constructor | src/kernel/heap.c:23-39 | The heap starts as one free block from the start rounded up |
| KernelHeap.Heap.Kmalloc | src/kernel/heap.c:41-73 | Claims the first free block that fits, split when a header and 16 bytes remain, and returns its data address; the header list in memory stays linked |
| KernelHeap.Heap.Kfree | src/kernel/heap.c:75-94 | Frees the block and merges all free neighbours |
| KernelHeap.Heap.MergeNeighbours | src/kernel/heap.c:82-93 | The merging loop computes the fully merged list |
| KernelHeap.MallocKeeps | src/kernel/heap.c:41-73 | Allocation keeps the list tiled, four-aligned and without free neighbours |
| KernelHeap.FreeKeeps | src/kernel/heap.c:75-94 | So does freeing |
| KernelHeap.HeapIsCanonical | src/kernel/heap.c:84-93 | The list is determined by the live blocks |
| KernelHeap.LiveDetermines | src/kernel/heap.c:41-94 | Two heaps over the same memory with the same live blocks are equal |
| KernelHeap.MallocLive | src/kernel/heap.c:41-73 | Allocation adds one live block, large enough and at a new address, and changes no other |
| KernelHeap.FreeLive | src/kernel/heap.c:75-94 | Freeing removes one live block and changes no other |
| KernelHeap.MallocFreeRestores | src/kernel/heap.c:41-94 | Freeing what was just allocated restores the exact list |
| KernelHeap.RunKeepsHeap | src/kernel/heap.c:41-94 | Over every run the list tiles the heap without free neighbours and live blocks are four-aligned and disjoint |
| KernelHeap.AllFreedIsInitial | src/kernel/heap.c:75-94 | Whenever nothing is live the heap is the single block it started as |
| KernelHeap.FreeAll | src/kernel/heap.c:75-94 | Freeing all live pointers in any order, with repetitions, leaves that single block |
| KernelHeap.MallocFailsIff | src/kernel/heap.c:66-72 | Allocation fails exactly when nothing is asked for or no free block is large enough |
| KernelHeap.MallocTakes | src/kernel/heap.c:41-73 | The lowest free block that holds the request rounded to four is taken; 28 or more bytes left make a free block behind a 12-byte header; the rest of the list stays |
| KernelHeap.LargeEnoughIff | src/kernel/heap.c:46-47 | A granted block is as large as requested exactly when rounding the request up does not wrap |
| KernelHeap.HugeRequestGetsNothing | src/kernel/heap.c:46-47 | A request for 2^32 - 1 bytes is granted an empty block |
| McbBlocks.AllocSucceedsIff | src/kernel/dos.c:1602-1653 | An allocation succeeds exactly up to the size a failed one reports, provided some block is free |
| McbBlocks.AllocTakes | src/kernel/dos.c:1548-1653 | The lowest free block that is large enough is taken; more than one paragraph left makes a free block; the rest of the list stays |
| McbBlocks.FreeGives | src/kernel/dos.c:1656-1687 | The block becomes free together with a free one behind it; the rest of the list stays |
| McbBlocks.ResizeMoves | src/kernel/dos.c:1690-1787 | The block gets the size, and what is left of it and of a free block behind it is one free block; a size that does not fit changes nothing |
| McbBlocks.ChildIs | src/kernel/dos.c:1255-1333 | Sixteen paragraphs of environment and a program block of everything, or of the 16-bit sum when two paragraphs or more are left, both owned by the PSP behind the program's header |
| McbBlocks.WithinIff | src/kernel/dos.c:1335-1361 | In bytes: PSP, image and every relocated word end inside the block |
| McbBlocks.SpanEnds | src/kernel/dos.c:1737-1740 | What a resize can use is the stretch up to the block behind the following free one |
| McbBlocks.StepTiled | src/kernel/dos.c:1548-1787 | Each memory call keeps the blocks tiling the arena; a resize names a block |
| McbBlocks.RunKeepsArena | src/kernel/dos.c:1548-1787 | Over every run of memory calls in which each resize names a block the blocks tile the arena, none overlap and the total of paragraphs is conserved |
| McbBlocks.StepKeepsOthers | src/kernel/dos.c:1548-1787 | A call on own or free blocks keeps every block of any other owner |
| McbBlocks.ExecTiled | src/kernel/dos.c:1302-1333 | EXEC's carving keeps the tiling |
| McbBlocks.ExecKeepsOthers | src/kernel/dos.c:1302-1333 | EXEC gives only free paragraphs to the child |
| McbBlocks.ExitLeaves | src/kernel/dos.c:1457-1511 | Exit leaves the other owners' blocks and one free block in every gap |
| McbBlocks.ExitTakesParentsBlock | src/kernel/dos.c:1457-1511 | A freshly loaded program that frees its program block and shrinks its environment to EEh paragraphs gets a child with its own PSP segment, whose exit takes the parent's environment |
| McbBlocks.ImageFitsIff | src/kernel/dos.c:1306-1414 | What is copied stays inside the granted block exactly when the room behind the environment suffices and, for an EXE that does not ask for everything, the 16-bit sum suffices too or takes nearly all of the room; for COM and EXE |
| McbBlocks.WholeImageFitsIff | src/kernel/dos.c:1306-1361 | For an image below 1 MB read as a whole this is: the room suffices, and the sum does not wrap or wraps to nearly all of the room |
| McbBlocks.ImageTooLarge | src/kernel/dos.c:1306-1335 | An EXE whose 16-bit sum wraps gets one paragraph of a large block |
| McbBlocks.FlatImageTooLarge | src/kernel/dos.c:1396-1414 | A COM file of FE00h bytes is accepted into a block of 1Fh paragraphs |
| McbArena.ChainReplace | src/kernel/comload.c:29-37 | Rewriting the headers in the stretch of some blocks replaces these blocks in the chain |
| McbArena.DataKeepsChain | src/kernel/dos.c:1548-1787 | A write to a paragraph that is no header keeps the chain |
| McbArena.LoadChain | src/kernel/exeload.c:86-145 | Whatever memory held before, after environment, headers, PSP, image and relocations of a first program it holds a chain of exactly two blocks |
| McbArena.Task.LoadExe | src/kernel/exeload.c:54-145 | A program whose size passes the 32-bit check gets the chain of environment and program; memory then holds its PSP, the last value of every relocated paragraph and the image elsewhere; it fails without an image; otherwise nothing changes |
| McbArena.Task.AllocateMemory | src/kernel/dos.c:1548-1653 | First fit from the chain; on failure BX is the largest free block |
| McbArena.Task.AllocParagraphs | src/kernel/dos.c:326-367 | The same choice as AH=48h for any nonzero size; 0 on failure or for size 0 |
| McbArena.Task.FreeMemory | src/kernel/dos.c:1656-1687 | Frees the named block and merges once with a free successor; for any ES the chain stays well formed |
| McbArena.Task.ResizeMemory | src/kernel/dos.c:1690-1787 | On any ES: the new memory and registers; a named block is resized, succeeding exactly up to the size reported in BX; for an ES that names no block the arena's blocks stay exactly when the header of the rest would not hit and change a true header |
| McbArena.ResizeTrue | src/kernel/dos.c:1712-1787 | The headers written for a true block are those of its resize, and the size reported is the stretch it can use |
| McbArena.ForgedIff | src/kernel/dos.c:1712-1787 | The exact condition on memory before the call for a resize that names no block to leave the arena's blocks alone |
| McbArena.ForgedHeaderBreaksChain | src/kernel/dos.c:1698-1730 | A concrete resize of such a paragraph after which no list of blocks describes the arena |
| McbArena.Task.FindLargest | src/kernel/dos.c:1214-1232 | Finds the first of the largest free blocks |
| McbArena.CarvingChain | src/kernel/dos.c:1281-1333 | The environment and the headers written first replace the free block by the child's blocks |
| McbArena.ExecChainIff | src/kernel/dos.c:1281-1414 | After all writes of EXEC memory holds the child's blocks exactly when PSP, image and relocations leave every header as it is |
| McbArena.InsideSpares | src/kernel/dos.c:1335-1414 | They do when they stay inside the granted block |
| McbArena.ExecLeaves | src/kernel/dos.c:1335-1414 | After EXEC memory holds the child's PSP, the last value of every relocated paragraph, and the image everywhere else |
| McbArena.ExecLeavesEnv | src/kernel/dos.c:1281-1300 | Its environment lies in front, and nothing below the free block has changed |
| McbArena.PspReads | src/kernel/comload.c:92-150 | The paragraphs of a PSP are what its bytes read as |
| McbArena.Task.Exec | src/kernel/dos.c:1196-1440 | Carves environment and program out of the largest free block, puts PSP and relocated image there, and saves the parent's registers, PSP, DTA and allocation pointer; all of memory afterwards, and exactly when the chain survives the copies; fails with 2 or 8 and changes nothing |
| McbArena.ExecRunExit | src/kernel/dos.c:1214-1530 | EXEC, any calls of the child on its own or free blocks, and EXIT: memory holds the child's blocks meanwhile and the arena is afterwards as before with free neighbours merged, exactly when the copies spare the headers and no block already carried the child's PSP as owner |
| McbArena.ExecRunExitOthers | src/kernel/dos.c:1214-1530 | When the copies spare the headers the other owners keep their blocks at the same place and size and the child keeps none |
| McbArena.PspBreaksChain | src/kernel/dos.c:1302-1336 | A concrete arena and EXE: the PSP wipes a header just written, and no list of blocks describes the arena |
| McbArena.ImageBreaksChain | src/kernel/dos.c:1396-1414 | A concrete arena and COM file: the image covers the header behind its block, and no list of blocks describes the arena |
| McbArena.Task.ReleaseBlocks | src/kernel/dos.c:1457-1486 | The first pass of exit frees every block of the child and does not change the merged result |
| McbArena.Task.MergeNeighbours | src/kernel/dos.c:1488-1511 | The second pass merges all free neighbours |
| McbArena.Task.Exit | src/kernel/dos.c:1447-1533 | Frees what the child owned, merges, and resumes the parent with its saved state, AX = 0 and CF clear |
| McbArena.FreeThenRelease | src/kernel/dos.c:1468-1483 | Freeing and merging one block of the child early does not change what exit leaves |
| McbArena.Task.Store | src/kernel/dos.c:1548-1787 | A program's own writes inside blocks keep the chain |
| McbArena.Task.RunProgram | src/kernel/dos.c:1214-1530 | A whole session of EXEC, memory calls and writes inside blocks by the child, and EXIT, with copies that spare the headers, restores the parent's registers, PSP, DTA and allocation pointer, and the arena exactly when no block carried the child's PSP |
| McbArena.Task.Dispatch | src/kernel/dos.c:1548-1787 | Any allocation, any free, and any resize that names a block or that the arena survives, takes the blocks to those of the list model |
| PmFrames.HandlerFlags | src/kernel/dpmi.c:4153 | A handler starts with TF clear, for exceptions and hardware interrupts with IF clear, and all other flags unchanged |
| PmFrames.DropRaise | src/kernel/dpmi.c:4364-4366 | Popping what was pushed restores the stack pointer, on 32-bit stacks and where only SP moves |
| PmFrames.StackMoves | src/kernel/dpmi.c:4364-4368 | Pushing and popping subtracts and adds modulo 2^32, or modulo 2^16 in the low half on a 16-bit stack |
| PmFrames.HandlerSees | src/kernel/dpmi.c:3906-4157 | Slot by slot from the handler's own SS:ESP: return address, error code, EIP, CS, EFLAGS, ESP and SS |
| PmFrames.InterruptSees | src/kernel/dpmi.c:4341-4433 | Slot by slot from the handler's own SS:ESP: EIP, CS and EFLAGS |
| PmFrames.NoWrapIff | src/kernel/dpmi.c:4364-4367 | On a stack where only SP moves the processor pops a frame from where it was pushed exactly when the frame does not wrap |
| PmFrames.Host.DeliverException | src/kernel/dpmi.c:3906-4157 | Pushes a frame with the interrupted place, flags and stack, records it, and enters the client's handler if it has one |
| PmFrames.Host.DeliverIrq | src/kernel/dpmi.c:4341-4433 | Pushes an interrupt frame of the client's width and enters the handler with TF and IF clear |
| PmFrames.Host.DeliverInt21 | src/kernel/dpmi.c:4768-4836 | Delivers INT 21h to the client's handler unless the chain stub issued it |
| PmFrames.Host.DeliverInt | src/kernel/dpmi.c:5027-5097 | Delivers any other software interrupt unless its handler has offset 0 |
| PmFrames.Host.ReturnFromException | src/kernel/dpmi.c:4498-4709 | Resumes the registers in the recorded frame, or in the one at ESP without a record, if CS is an LDT selector in use |
| PmFrames.ExcReturnReadsOwnFrame | src/kernel/dpmi.c:4498-4709 | INT F3h takes the registers that the frame of the innermost pending exception holds, by the record or by the stack, whatever the handler wrote there |
| PmFrames.IntReturnReadsOwnFrame | src/kernel/dpmi.c:4364-4383 | IRET of the client's width takes what the frame of the innermost interrupt holds |
| PmFrames.StepKeepsInv | src/kernel/dpmi.c:3942-3949 | At every step, with handlers free to write any memory, an active record is that of the innermost pending exception |
| PmFrames.ReturnsReadOwnFrame | src/kernel/dpmi.c:3906-4709 | In every run of deliveries nested to any depth and in any mixture, in which handlers may edit any frame, each return resumes what the frame of its own delivery holds at that moment, and the outer deliveries stay pending |
| PmFrames.ReturnsMatch | src/kernel/dpmi.c:3906-4709 | If nothing writes its frame while a delivery is pending, the return restores EIP, CS, EFLAGS, ESP and SS exactly when they fit the frame's width |
| PmFrames.UntouchedRestoresIff | src/kernel/dpmi.c:4682-4706 | An untouched frame gives back the interrupted context exactly when the interrupted registers fit the frame |
| PmFrames.FallbackFindsFrameIff | src/kernel/dpmi.c:4530-4541 | Without a record the frame is found exactly on a 32-bit stack or when the high half of ESP is zero |
| PmFrames.Outer16Misread | src/kernel/dpmi.c:4504-4541 | For a 16-bit client a return without a record resumes at an EIP made of the interrupted CS and FLAGS |
| RmCalls.Trampoline.Call | src/kernel/dpmi.c:2204-2253 | Saves the client and enters the real-mode procedure with a return address that leads to the sentinel; a client with a call pending gets error 8001h instead |
| RmCalls.Trampoline.PushReturn | src/kernel/dpmi.c:5254-5276 | A far return or IRET from the new stack pointer leads to the sentinel, wherever SP wraps |
| RmCalls.EntryFlagBits | src/kernel/dpmi.c:5309-5312 | Bit by bit, the flags a procedure starts with: seven of the caller's, IF and VM set, the rest clear |
| RmCalls.EnteredIsReported | src/kernel/dpmi.c:5229-5408 | A procedure that changes no register gives the call structure back, but for stack and flags |
| RmCalls.Trampoline.Unwind | src/kernel/dpmi.c:5352-5408 | Reports all real-mode registers to the first client with a call pending and resumes it |
| RmCalls.SaveStays | src/kernel/dpmi.c:2215-2219 | Nothing replaces what was saved while the call is pending |
| RmCalls.RoundTripIff | src/kernel/dpmi.c:5229-5408 | Whatever ran in between, the client gets back every register and flag, CF being the real-mode one, exactly when its CS and SS fit in 16 bits |
| RmCalls.HighHalfLost | src/kernel/dpmi.c:5229-5408 | A call and its return by a client whose saved CS is 1000Fh resume it with CS 000Fh |
| RmCalls.ResumesLowest | src/kernel/dpmi.c:5355-5360 | With several calls pending the sentinel never resumes a higher client |
| DpmiMemory.ClientMemory.Reserve | src/kernel/dpmi.c:492-545 | Reserves the rounded size, capped at the end of the zone, at the next free address, in the first free slot; fails exactly without a slot or at the end of the zone |
| DpmiMemory.ReserveKeeps | src/kernel/dpmi.c:492-545 | Reservations stay page-aligned, inside the zone, below the next address and disjoint |
| DpmiMemory.PagesApart | src/kernel/dpmi.c:492-545 | No page belongs to two reservations, and none lies outside the zone |
| DpmiMemory.LongEnoughIff | src/kernel/dpmi.c:503-537 | A reservation is as long as requested exactly when the request fits the rest of the zone; above FFFFF000h it is one page |
| DpmiMemory.ReportedIsReservable | src/kernel/dpmi.c:2106-2137 | Any nonzero size reported by 0500h is reserved in full |
| DpmiMemory.ReportedIsLargest | src/kernel/dpmi.c:2106-2137 | The size reported fits zone and commit budget, and nothing larger fits both |
| DpmiMemory.GrantedIs | src/kernel/dpmi.c:503-537 | A reservation is the fewest whole pages that hold the request, a page for nothing or a wrapping request, and at most the rest of the zone |
| DpmiMemory.ClientMemory.Commit | src/kernel/dpmi.c:170-184 | Maps one frame, and a page table if needed, and counts the page; refused at the cap or without a frame; halts the kernel exactly when the page needs a table and one frame was left |
| DpmiMemory.ClientMemory.MapPage | src/kernel/vmm.c:64-96 | Enters the page into its table, making the table from a second frame if it is missing; without that frame nothing is mapped |
| DpmiMemory.FramesConserved | src/kernel/dpmi.c:164-184 | The commit counter is the number of mapped pages, and every frame is free, backs one page or is one page table |
| DpmiMemory.ClientMemory.Release | src/kernel/dpmi.c:547-570 | Gives back the frames of exactly the released block's pages |
| DpmiMemory.ClientMemory.ReleaseClient | src/kernel/dpmi.c:247-268 | Gives back every reservation's pages; pages committed outside reservations stay mapped and counted |
| DpmiMemory.ClientMemory.Perform | src/kernel/dpmi.c:164-570 | Over every sequence of calls and faults that goes on, reservations stay sound, the counter equals the mapped pages and stays within the cap, and frames are conserved; a run ends early only when a page and its table need two frames and one is left |
| Terminal.PutFits | src/kernel/dpmi.c:1259-1299 | The cursor stays on the screen for any byte |
| Terminal.ReturnAndFeed | src/kernel/dpmi.c:1259-1299 | A return goes to the start of the row, a line feed to that of the next, moving the rows up at the end of the screen |
| Terminal.BackMeans | src/kernel/dpmi.c:1259-1299 | A backspace blanks the cell before the cursor and goes there |
| Terminal.TabMeans | src/kernel/dpmi.c:1259-1299 | A tab writes spaces up to the next multiple of eight or the end of the row |
| Terminal.ShowMeans | src/kernel/dpmi.c:1259-1299 | Any other byte is shown with its attribute, and the cursor moves on |
| Terminal.Vt.Putc | src/kernel/dpmi.c:1259-1299 | Control characters, tabs, printing, wrapping and scrolling as specified; buffers and VGA memory stay equal |
| Terminal.Vt.Scroll | src/kernel/dpmi.c:1228-1242 | Moves every row up and blanks the last, in the buffers and in VGA memory |
| Terminal.Vt.Clear | src/kernel/dpmi.c:1244-1254 | Blanks buffers and VGA memory and homes the cursor |
| Terminal.WrittenShowsLastRows | src/kernel/dpmi.c:1259-1299 | Printable text written to a cleared screen leaves exactly its last rows, wrapped at the width, and blanks; the cursor is where the text ends |
| Ldt.SetupReads | src/include/dpmi.h:268-285 | A descriptor gives back its base and lets through exactly its limit, rounded up to pages above 1 MB |
| Ldt.Table.Alloc | src/kernel/dpmi.c:419-438 | Takes the lowest run of free slots and touches no other; 0 when there is none |
| Ldt.Table.Free | src/kernel/dpmi.c:453-456 | Marks the slot free and keeps the rest of the descriptor |
| Ldt.Table.Set | src/kernel/dpmi.c:459-469 | Sets base, limit, access byte and width of one slot |
| Ldt.KeptUntilHandedOut | src/kernel/dpmi.c:440-456 | Until a slot is handed out again or set up it keeps its base, limit and access byte, whatever is allocated, freed and set up around it |
| Ldt.UsedIsSafe | src/kernel/dpmi.c:419-438 | A slot in use is never handed out before it was freed |
| VtSlots.Terminals.Alloc | src/kernel/dpmi.c:2453-2568 | All or nothing: success adds exactly three large enough buffers and three descriptors that map them; every failure leaves heap, used descriptors and terminals as before |
| VtSlots.Terminals.TakeBuffers | src/kernel/dpmi.c:2473-2517 | Three buffers or an unchanged heap |
| VtSlots.Terminals.TakeDescriptors | src/kernel/dpmi.c:2527-2544 | Three descriptors or the same set of used ones |
| VtSlots.Terminals.Free | src/kernel/dpmi.c:2821-2845 | Gives back exactly what the terminal held |
| VtSlots.Terminals.ReleaseAll | src/kernel/dpmi.c:273-299 | At the end of the client exactly what its terminals held goes back |
| VtSlots.Terminals.AllocThenFree | src/kernel/dpmi.c:2453-2845 | Allocating a terminal and freeing it restores heap, used descriptors and terminals |
| Dma.Pool.Alloc | src/kernel/dma.c:77-111 | The lowest aligned place where the bytes meet no run becomes a run of the fewest 16-byte units that hold them; 0 exactly when there is none, the alignment is no power of two of 16 or more, or the size is 0 or above FFFFFFF0h |
| Dma.LowestIsLowest | src/kernel/dma.c:94-103 | No suitably aligned vacant run below the chosen one is overlooked |
| Dma.Pool.Free | src/kernel/dma.c:109-138 | A live run's start is freed and exactly its bytes zeroed; any other address changes nothing |
| Dma.AddRun | src/kernel/dma.c:94-100 | Adding a vacant run keeps the runs disjoint and covers exactly its units more |
| Dma.DropRun | src/kernel/dma.c:125-135 | Dropping a run uncovers exactly its units |
| Dma.CountIsTotal | src/kernel/dma.c:149-151 | The number of marked units is the total length of the runs |
| Dma.Pool.FreeBytes | src/kernel/dma.c:149-151 | The free bytes are the region less the live runs |
| Dma.AlignedIff | src/kernel/dma.c:82-101 | The address is aligned as asked exactly for alignments up to 2 MB |
| Keyboard.Driver.UpdateModifiers | src/kernel/keyboard.c:217-267 | Updates both modifier bytes and their copies in the BIOS data area |
| Keyboard.Driver.Isr | src/kernel/keyboard.c:279-346 | One byte from the controller updates key state, modifiers and prefix |
| Keyboard.Driver.Inject | src/kernel/keyboard.c:547-567 | A whole sequence updates them as its decoded keys say and leaves the pending prefix alone |
| Keyboard.PathsAgree | src/kernel/keyboard.c:279-567 | For every byte stream without a pending prefix both paths end in the same key states and modifiers |
| Keyboard.CutIff | src/kernel/keyboard.c:547-567 | Injecting a stream in two pieces decodes as the whole exactly when the cut does not part a prefix from its key |
| Keyboard.ModifiersMean | src/kernel/keyboard.c:217-267 | Shift, Ctrl and Alt bits say whether the key's last event was a make, combined bits whether one side is down, lock bits are the parity of the makes, key states the last event |
| Keyboard.BytesMean | src/kernel/keyboard.c:332-340 | Over any bytes: a key is down when its last byte was the make, Ctrl and Alt by the side a preceding E0h gives, and lock bits are the parity of the bytes 3Ah, 45h, 46h and 52h |
| Keyboard.Typed | src/kernel/keyboard.c:332-640 | The same of a driver that got the bytes by interrupt, or injected as one sequence |
| KeyRing.Ring.Put | src/kernel/keyboard.c:269-277 | Appends a key unless the ring is full |
| KeyRing.Ring.Peek | src/kernel/dpmi.c:1310-1319 | Shows the oldest key and leaves the ring alone |
| KeyRing.Ring.Take | src/kernel/keyboard.c:620-625 | Takes the oldest key |
| KeyRing.Ring.Pump | src/kernel/keyboard.c:269-625 | Over any interleaving of presses and fetches the ring holds and delivers what the queue model says |
| KeyRing.FirstInFirstOut | src/kernel/keyboard.c:269-625 | What came out followed by what is held is what was held followed by the presses that met a ring with room: in order, none lost, doubled or invented |
| KeyRing.NothingDroppedIff | src/kernel/keyboard.c:269-277 | Every press is accepted exactly when none meets a full ring |

## Left out

- FatVolume.Volume.Write: the returned count is unbounded; the source returns it as a signed 32-bit number.
- FatVolume.Volume.Read: the same holds for the returned count; position and size are ordinary numbers cut at 2^32 where the source adds them.
- FatVolume.Volume.ReadEntry: the source ignores failed transfers of table sectors; here these transfers succeed, while data sectors may fail at any time.
- FatVolume.Volume.CreateFile: only the cluster of a new file; writing directory entries, rename, mkdir, full directories and path resolution are not modelled.
- FatVolume.Volume.CloseFile: the size written back to the directory entry is kept in the map of FatSession.Session, not on the disk.
- FatSession.Session: reads whose position and count reach 4 GB and removals of open files are left undone; DeleteFile and Read say what they would do. That a short write without a failed transfer means a full volume is said by Write.
- FatLayout.MountIsWf: the boot sector's fields are the input; reading them from the sector, partition tables and 32-bit wrap-around of corrupt fields are not modelled. One volume, 512-byte sectors.
- DirSearch.Search.Next: the pattern is given as its eleven bytes; building it from a string, drive letters, and the name's date and time are not modelled.
- KernelHeap.Heap.constructor: the heap starts above the first 16 bytes and ends below 4 GB.
- KernelHeap.Heap.Kfree: the pointer is null or live; freeing anything else writes to arbitrary memory. That case is outside the model.
- McbArena.Task.AllocateMemory: the branch that heals a corrupt chain is dead on a well-formed one and is not modelled.
- McbArena.Task.LoadExe: the arena has at least 110h paragraphs and lies below paragraph FFFFh; opening the file and its signature are not modelled.
- McbBlocks.StepTiled: the list view has no memory, so a resize of a paragraph that starts no block is judged on memory by McbArena.ForgedIff.
- McbArena.Task.Exec: a file is given by how its paragraphs read as headers once copied and relocated, not by its bytes; writes above 1 MB and the child's entry registers are not modelled. A second EXEC before EXIT overwrites the saved parent, as in the source.
- McbArena.Task.RunProgram: requires that the copies spare the headers; what EXIT does on a destroyed chain is not modelled.
- McbArena.Task.Exit: the resumed registers include those the V86 layer restores from the same save; closing of file handles is not modelled.
- PmFrames.Host.DeliverException: demand paging, instruction decoding, selector patching and the choice of the client come before and are not modelled; SS names a slot of the LDT.
- PmFrames.Host.ReturnFromException: what happens to a frame with a bad CS (resuming behind an IRET, or leaving protected mode) is not modelled.
- PmFrames.ReturnsReadOwnFrame: the client runs at I/O privilege level 3, so its IRET restores IF; frames do not wrap around 4 GB and interrupt frames not around their segment; an interrupt handler returns with the stack pointer it got, an exception handler without a record with ESP at its frame.
- RmCalls.Trampoline.Call: the call structure is a record per client, not bytes in client memory.
- DpmiMemory.ClientMemory.Commit: page contents are not modelled. One client, no physical mappings inside the zone; the frame chosen is any free one.
- Terminal.Vt.Putc: the polling calls and the sandbox copy are not modelled.
- Ldt.Table.Alloc: the calls that set single descriptor fields, alias real-mode segments or claim a given slot below 16 are not modelled.
- VtSlots.Terminals.Free: a client may free its terminal's selector itself by INT 31h AX=0001h, after which the descriptor can be handed out again and this call frees a stranger's; the model's terminals own their descriptors until they give them back, which excludes this.
- VtSlots.Terminals.Alloc: clearing the new screen is Terminal.Vt.Clear; the unused fields of a free slot are not modelled.
- Dma.Pool.Alloc: the power-of-two test is stated by halving, not by a bit operation; interrupts are off during the call.
- Keyboard.Driver.Isr: layouts, ASCII translation, hot keys and the delivery of events are not modelled; modifier bytes are records of bits.
- KeyRing.Ring.Put: one model for the event queue, the terminals' rings and the BIOS buffer; a client that writes its own ring's cursors is trusted.
- Serial output, diagnostics and timing everywhere.
- ATA, floppy, interrupt controller and port access: hardware register sequences.
- Emulation of video, keyboard and mouse interrupts, VBE tables, vendor interfaces, configuration, hardware probing, networking and USB interfaces: fixed data or parsing with only easy facts.
