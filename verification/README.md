# The 2.11BSD storage engine of retro-fuse, verified

The repository mounts file systems of research Unix and BSD by running the kernels' own file system code over a
disk image. This project models that code, from the bytes of a disk block up to `rename`, and proves what it
promises. The model follows 2.11BSD, with the sixth and seventh edition and 2.9BSD where their algorithms differ.
Everything is sequential, as in the port: the disk strategy is synchronous (`src/bsd211adapt.c:113-134`) and
`sleep` returns at once (`src/bsd211adapt.c:228-236`).

`dafny verify dfyconfig.toml` checks the whole project.

## The layers

1. **Block storage.** `DiskFormat` and `Superblock` have the blocks, `DiskLayout` says byte by byte what is where,
   `FreeChain` the free list as a stack of chained tables, `Tally` the counting of blocks, `BlockTree` and `InodeMap`
   the map of a file through up to three levels of indirect blocks, with the multiset of blocks that a tree consists
   of. `Growth`, `Shrink` and `FileTrim` state what filling a hole and truncation do to trees and free list, and
   `Shortage` how many blocks are missing for a range of a file; `Volume` has the code: `balloc`, `free`, `bmap`,
   `itrunc`, `indirtrunc`, `trsingle` and `rwip` on one class for the volume. A block may be data, indirect block or
   link block of the free list in turn; `Separate` (no block twice, none both free and in use) is what every operation
   keeps, and unless the superblock is marked as modified, the one on the disk has the free list.
2. **Files.** `FileContents` reads a file as bytes, and `Store` puts any number of files on one volume: reading,
   writing and truncating are operations on plain byte strings, and the blocks of all files and of the free list
   together are, in every state, the blocks that were placed on the list at the start, each once.
3. **Buffers.** `BufferCache` is a write-back cache that its users cannot tell from the array `store` of blocks.
   `Rings` shows that the pointer operations on circular lists are the list operations that `BufferCache` uses,
   `HashChains` what hash chains keep.
4. **Directories.** `DirEntries` and `Compaction` work on the bytes of a chunk, `Directories` and `DirFile` on a
   directory file, `DirDots` on the place of "." and "..". `DirNames` shows that the operations on bytes add, remove
   and change single names.
5. **Names.** `NameTree`, `TreeMoves`, `CallSpecs` and `RenameSpec` state link counts and the tree as properties of
   one map from (directory, name) to inode number; `Syscalls` has the calls, step by step on entries and counts.
   `PathWalk` is the walk along a path, `PathMeaning` what a path means, `NameCaching` the name cache. `RenamePaths`
   is about the second walk of rename, `CallRuns` has short runs that end in unexpected states.
6. **In-core inodes.** `FreeInodes` is the free list with its back links, `InodeTables` the table with its hash
   chains, reference counts and write-back. `InodeBlocks` has the inodes' bytes.
7. **The mounted volume.** `FileSets` states what it means that an image can be mounted and that a volume in use is
   consistent with its inodes in core. `Durability` puts storage engine, buffer cache and inode table together:
   mounting, the operations on inodes and files, `ufs_sync`, and mounting again.
8. **mkfs and statfs.** `Mkfs` has the interleaved free lists, `NewVolume` and `FirstDirectories` the new volume with
   its first directories, which can be mounted; `Statfs` has the walk that counts a free list.

## What the code does not do

Some properties that one would expect do not hold of the code. Each is kept in the model as it is, with the exact
condition under which the property holds.

- `mkdir`: when the entry in the parent cannot be made, the code looks for the parent under the name of the new
  directory (`ancient-src/bsd211/sys/ufs_syscalls.c:1273-1281`), finds nothing, and the parent's link count stays
  one too high. `Syscalls.FileTree.Mkdir` keeps the counts if and only if that exit is not taken;
  `CallRuns.MkdirLosesCount` is a case.
- `rename` of a directory to a new parent: the new parent's count goes up before the entry is made and is not taken
  back when that fails (`ancient-src/bsd211/sys/ufs_syscalls.c:952-966`). `rename` of a directory onto an empty
  directory in the same parent: the parent's count is not reduced for the ".." that is gone
  (`ancient-src/bsd211/sys/ufs_syscalls.c:967-1033`). `Syscalls.FileTree.Rename` keeps the counts if and only if
  neither happens (`RenameSpec.NotEntered`, `RenameSpec.ReplacedBeside`); `CallRuns.RenameFails` and
  `RenameSpec.RenameLosesCount` are cases.
- A rename of a directory marks it, and only a rename that moves it takes the mark back
  (`ancient-src/bsd211/sys/ufs_syscalls.c:874`, `:1104-1113`). After one that failed, or had nothing to do, the next one
  is refused if and only if somebody else has held the directory since (`Syscalls.FileTree.Rename`); see
  `CallRuns.RefusedNext`.
- `rename` walks the old path again when the new name has been entered. It finds the old entry if the walk does not go
  through the target (`RenamePaths.ThirdLookup`); `RenamePaths.LostEntry` is an allowed rename in which it does, and
  the code panics.
- `link` and `unlink` of a directory, which only the superuser may do, keep the link counts and lose the tree; in all
  other cases both are kept (`Syscalls.FileTree.Link`, `Syscalls.FileTree.Unlink`).
- The name cache: when the 16-bit id counter wraps, all entries get id 0 and so does the inode being invalidated,
  whose stale entries are thereby current again (`NameCaching.StaleUnlessWrapped`). Agreement with the directories
  is proved for runs in which the counter does not wrap.
- mkfs of the seventh edition, 2.9BSD and 2.11BSD never places the last block of the volume on the free list when
  the group size divides `fsize - 1`, and only then (`Mkfs.LastBlockLost`). With two blocks in the data area it then
  fails for want of one for the root directory, and only then (`NewVolume.Format`).
- `rwip` with `IO_UNIT` does not take a partial write back when the volume is full: the return is inside the loop
  (`ancient-src/bsd211/sys/sys_inode.c:211-285`), and behind the loop there is no error. A write is all or nothing
  if and only if `Volume.Undivided`: the free list has what is missing for the whole of it, or not even what is
  missing for its first block. That is so of every write inside one block, so of all writes to directories
  (`Volume.OneBlockUndivided`); it is not so of a symbolic link of 1025 bytes with one free block
  (`Volume.WriteDivided`).
- `itrunc` to a shorter length inside a block has to allocate that block when it is a hole. The length is reached if
  and only if `Volume.Reachable`: the new end is at a block boundary, or the blocks missing on the way to it are free
  and no error is left over from before (`Volume.FileSystem.Itrunc`). `Volume.CutRefused` has two cases.
- `bsd211fs_sync` does nothing unless the superblock is marked as modified, which a change of inodes or of bytes in
  blocks that a file has already does not do (`src/bsd211fs.c:916-929`). Everything is on the disk afterwards if and
  only if it is marked or everything was there before (`Durability.Mounted.Commit`); a change of mode after a sync is a
  case (`Durability.ChmodNotCommitted`). Unmounting and `ufs_sync` itself do not depend on the mark.
- An inode without links whose size is 0 loses its blocks when it is freed, because `itrunc` returns at once, and
  `ialloc` then clears the addresses (`ancient-src/bsd211/sys/ufs_alloc.c:163`). All blocks return to the free list if
  and only if the size is not 0 or the file has no blocks (`Durability.Mounted.FreeFile`). An empty file can have
  indirect blocks, left by a write that failed (`Durability.FreedWithBlock`), but never a first block
  (`FileSets.InOrder`), so that clearing the device number, which shares its place, harms nothing.

## Model

| member | source | states |
|---|---|---|
| DiskFormat.WordSwapTwice | src/bsd211adapt.h:605-612 | exchanging the halves of a 32-bit word is an involution, and changes a word exactly when its halves differ |
| DiskFormat.LongRoundTrip | src/bsd211adapt.h:605-612 | a long that is stored is read back unchanged, for every value and position; DiskLayout.LongStored and DiskLayout.LongLayout say which bytes it is |
| DiskLayout.LongLayout | src/bsd211adapt.h:605-612 | a long is read from four bytes as the PDP-11 has them: the high half first, and the low byte of each half first; 0, 0, 5, 0 is 5 |
| DiskLayout.LongStored | src/bsd211adapt.h:605-612 | the four bytes that are written for a long are those, for every value |
| DiskLayout.PointersLayout | ancient-src/bsd211/sys/ufs_bmap.c:119-158 | entry i of an indirect block is the long at byte 4i |
| DiskLayout.TableLayout | ancient-src/bsd211/h/fs.h:68-75 | a table of free blocks is a signed short with the number of entries, and entry i is the long at byte 2 + 4i |
| DiskLayout.SuperLayout | ancient-src/bsd211/h/fs.h:46-68 | the fields of the superblock by their bytes: fs_isize at 0, fs_fsize at 2, fs_nfree at 6, fs_free at 8, fs_tfree at 418 |
| DiskLayout.SuperOthers | ancient-src/bsd211/h/fs.h:46-68 | all other bytes of a written superblock are those in core |
| DiskLayout.DinodeLayout | ancient-src/bsd211/h/inode.h:78-106 | inode ino is number (ino - 1) % 16 of block 2 + (ino - 1) / 16, 64 bytes each, and its fields are at bytes 0, 2, 4, 6, 8, 12 and 50 of it |
| DiskLayout.DinodeOthers | ancient-src/bsd211/h/inode.h:96-106 | storing an inode leaves the reserved bytes and the rest of the block alone, and puts the times at byte 52 |
| DiskLayout.RecordLayout | ancient-src/bsd211/h/dir.h:25-30 | a directory record: inode number, record length and name length as shorts, and the name at byte 6 |
| DiskLayout.BlockOfLayout | ancient-src/bsd211/sys/ufs_bmap.c:51-158 | block bn of a file in arithmetic: four addresses in the inode, entry bn - 4 of a single indirect block, two entries for bn - 260 and three for bn - 65796; a missing block has holes only |
| DiskFormat.SetPointerPointers | ancient-src/bsd211/sys/ufs_bmap.c:119-158 | storing a block number in one slot of an indirect block changes that slot's pointer and no other |
| DiskFormat.ZeroFromPointers | ancient-src/bsd211/sys/ufs_inode.c:604-690 | clearing an indirect block from an entry on leaves the pointers before it and makes the others holes |
| DiskFormat.TableRoundTrip | ancient-src/bsd211/sys/ufs_alloc.c:48-118 | a free table written to a block and read back is the same table |
| Superblock.SuperRoundTrip | ancient-src/bsd211/h/fs.h:46-68 | the sizes, the free table and the number of free blocks are read back from a superblock as they were written, for all values that fit their fields |
| Superblock.SavedNow | ancient-src/bsd211/sys/ufs_alloc.c:75-89 | writing the superblock leaves the free list as it is, and on the disk the same list, with its length |
| FreeChain.ChainUnique | ancient-src/bsd211/sys/ufs_alloc.c:48-118 | the superblock table and the disk determine the free list: no second list fits them |
| FreeChain.ChainFrame | ancient-src/bsd211/sys/ufs_alloc.c:34-119 | writing blocks that are not on the free list leaves the list as it is |
| FreeChain.ChainPop | ancient-src/bsd211/sys/ufs_alloc.c:48-101 | taking the top entry, with or without reloading the table from the link block, leaves the chain of the rest |
| FreeChain.ChainPush | ancient-src/bsd211/sys/ufs_alloc.c:245-280 | freeing a block, with or without spilling the table into it, gives the chain with that block on top |
| FreeChain.FreeListTop | ancient-src/bsd211/sys/ufs_alloc.c:48-75 | the next block to be allocated is the last of the list, in range, and the list is empty exactly when the table says so |
| Volume.FileSystem.constructor | src/bsd211fs.c:1047-1060 | a new volume has an empty, sound free list |
| Volume.FileSystem.Mount | src/bsd211fs.c:117-139 | an image whose superblock has a free list becomes a sound volume with that list, and with the superblock marked as modified |
| Volume.FileSystem.SaveSuper | ancient-src/bsd211/sys/ufs_syscalls2.c:165-174 | afterwards the superblock on the disk has the free list, and it is not marked as modified |
| Volume.FileSystem.TakeEntry | ancient-src/bsd211/sys/ufs_alloc.c:48-75 | the table loop skips entries out of range; on a sound volume it yields the top of the list at the first attempt |
| Volume.FileSystem.Balloc | ancient-src/bsd211/sys/ufs_alloc.c:34-119 | pops the free list and nothing else; ENOSPC exactly when it is empty; a cleared block is zero, any other may hold anything; stays in range on any volume; unless the superblock is marked as modified, the one on the disk has the free list |
| Volume.FileSystem.Free | ancient-src/bsd211/sys/ufs_alloc.c:245-280 | pushes the block: with Balloc the list is a stack, fs_tfree is its length, and no other block changes; numbers out of range are ignored; the superblock is marked as modified |
| InodeMap.LocationUnique | ancient-src/bsd211/sys/ufs_bmap.c:51-93 | different logical block numbers have different places: inode slot and index |
| InodeMap.BlockOfUnique | ancient-src/bsd211/sys/ufs_bmap.c:51-159 | no two logical blocks of a file share a physical block |
| InodeMap.DataNotInner | ancient-src/bsd211/sys/ufs_bmap.c:119-158 | no block is both data and indirect block of a file |
| BlockTree.SplitInjective | ancient-src/bsd211/sys/ufs_bmap.c:130-140 | the path through the levels of a tree is determined by the index and determines it |
| BlockTree.LeafUnique | ancient-src/bsd211/sys/ufs_bmap.c:119-158 | in a tree without repeated blocks different indices reach different data blocks |
| BlockTree.TreeFrame | ancient-src/bsd211/sys/ufs_inode.c:604-690 | a tree is unchanged, in its blocks and its mapping, by writes outside its inner blocks |
| BlockTree.HungLookup | ancient-src/bsd211/sys/ufs_bmap.c:119-158 | hanging a new block into the tree changes no block, data or indirect, that is not on the way to the wanted index |
| BlockTree.HungNodes | ancient-src/bsd211/sys/ufs_bmap.c:119-158 | hanging a new block into the tree adds exactly that block to the tree's blocks |
| BlockTree.SharedNode | ancient-src/bsd211/sys/ufs_bmap.c:119-158 | one indirect block serves all indices below it |
| Shortage.NeedIs | ancient-src/bsd211/sys/ufs_bmap.c:104-158 | what is missing on the way to a block is missing from some height down, so many blocks as the height says |
| Shortage.NeedNothing | ancient-src/bsd211/sys/ufs_bmap.c:51-158 | nothing is missing exactly when the block is mapped, and never more than four blocks are |
| Shortage.NeedLeft | ancient-src/bsd211/sys/ufs_bmap.c:104-158 | after all blocks before it have been mapped, a block needs what none of those before it needed |
| Shortage.SuppliedNoMore | ancient-src/bsd211/sys/sys_inode.c:211-235 | a block that cannot be had after those before it have been mapped shows that the free list was too short for all of them from the start |
| Growth.GrownHang | ancient-src/bsd211/sys/ufs_bmap.c:119-158 | one level of the loop moves exactly one block from the free list into the tree |
| Volume.FileSystem.Hang | ancient-src/bsd211/sys/ufs_bmap.c:119-158 | one turn of the loop that finds a hole: a cleared block comes from the free list into the indirect block above it, or the list is empty and nothing changes |
| Volume.FileSystem.BmapDirect | ancient-src/bsd211/sys/ufs_bmap.c:51-72 | the direct slots: a mapped block is returned, a hole is reported or filled from the free list, exactly when that is not empty |
| Volume.FileSystem.BmapIndirect | ancient-src/bsd211/sys/ufs_bmap.c:98-158 | the first indirect block and the loop through the levels: the block is mapped in the end exactly when the free list has as many blocks as are missing on the way, and takes exactly these; otherwise the list is empty, with its blocks in the file |
| Volume.FileSystem.Bmap | ancient-src/bsd211/sys/ufs_bmap.c:32-160 | finds or fills one logical block and maps no other differently; in write mode it is mapped afterwards if and only if the free list has the blocks that are missing, which are then taken and no others; blocks of file and free list together are conserved, ENOSPC included; a hole reads as none; EFBIG outside the map |
| Shrink.CutPart | ancient-src/bsd211/sys/ufs_inode.c:604-690 | after the tail and the partial subtree have been cut, the tree is the old one trimmed to the kept indices |
| Shrink.CutConserves | ancient-src/bsd211/sys/ufs_inode.c:604-690 | what a cut removes from a tree goes to the free list, each block once |
| Shrink.CutGone | ancient-src/bsd211/sys/ufs_inode.c:660-690 | once all entries are cut, freeing the root returns the whole tree |
| Shrink.KeptWhole | ancient-src/bsd211/sys/ufs_inode.c:604-690 | a tree that has been trimmed is as it would be after being trimmed once more: no indirect block without a block to keep is left |
| Volume.FileSystem.TrSingle | ancient-src/bsd211/sys/ufs_inode.c:703-720 | the data blocks under a single indirect block go back, from a copy of its pointers that free() cannot overwrite |
| Volume.FileSystem.IndirTrunc | ancient-src/bsd211/sys/ufs_inode.c:604-690 | a tree is trimmed to exactly its first lastbn+1 data blocks and the indirect blocks these need; the rest is on the free list once |
| Volume.FileSystem.ClearTail | ancient-src/bsd211/sys/ufs_inode.c:488-519 | the block with the new end is mapped and cleared behind it, if and only if it can be had; no other block gets mapped and nothing else changes for a reader |
| Volume.FileSystem.CutBlocks | ancient-src/bsd211/sys/ufs_inode.c:521-567 | all slots of an inode are cut back together |
| Volume.FileSystem.Itrunc | ancient-src/bsd211/sys/ufs_inode.c:441-586 | reaches the length if and only if the block with the new end is there or can be had without an error from before; then the file has zeros behind the old contents, keeps the mapping of every kept block, and every tree has exactly the blocks that the kept ones need; growing takes exactly the blocks missing on the way to the new end and maps no other; otherwise nothing changed for a reader, with ENOSPC or EFBIG |
| Volume.FileSystem.RwipRead | ancient-src/bsd211/sys/sys_inode.c:101-317 | returns min(count, size - offset) bytes of the file, zeros for holes, EINVAL for a negative offset; changes nothing |
| Volume.FileSystem.WriteChunk | ancient-src/bsd211/sys/sys_inode.c:211-285 | one block of a write: bytes in the chunk are the data, all others as before, if and only if what is missing on the way to the block is free; exactly that is taken, and no other block gets mapped |
| Volume.FileSystem.WriteBlocks | ancient-src/bsd211/sys/sys_inode.c:211-285 | the loop: all of the data is written if and only if the free list has what is missing for all of its blocks, and some of it if and only if it has what is missing for the first; the blocks missing for what was written are taken and no more, and no block outside gets mapped |
| Volume.FileSystem.RwipWrite | ancient-src/bsd211/sys/sys_inode.c:101-303 | a prefix of the data is in the file and nothing else changed; on every exit exactly the blocks of that prefix are mapped in addition, and without ENOSPC the free list is shorter by what was missing for them; all of it if and only if it fits the limits and the free list; all or nothing, with and without IO_UNIT, if and only if all of it or not even the first block can be had; the code that takes a partial write back is not reached with an error |
| Volume.OneBlockUndivided | ancient-src/bsd211/sys/ufs_namei.c:985-989 | a write inside one block, as those of direnter, dirremove and mkdir, is done as a whole or not at all, whatever is free |
| Volume.EntryFits | ancient-src/bsd211/sys/ufs_namei.c:897-912 | a new chunk of a directory can be written exactly when what is missing on the way to its block is free; in a block that the directory has, always |
| Volume.WriteDivided | ancient-src/bsd211/sys/ufs_syscalls.c:306-345 | a symbolic link of 1025 bytes with one free block is cut to its first 1024 bytes |
| Volume.CutRefused | ancient-src/bsd211/sys/ufs_inode.c:488-519 | a file of 2048 bytes without blocks cannot be cut to 100 bytes on a full volume, nor any file to 100 bytes with an error left over |
| Store.OtherFile | ancient-src/bsd211/sys/ufs_alloc.c:34-119 | an operation on one file leaves the blocks, the mapping and the contents of every other file alone |
| Store.CensusKept | ancient-src/bsd211/sys/ufs_alloc.c:34-119 | all files' blocks and the free list together stay the blocks that were placed on the list, each once |
| Store.ShrinkThenExtend | ancient-src/bsd211/sys/ufs_inode.c:472-519 | shrinking and extending a byte string yields the kept part and zeros |
| Store.SplicedRead | ancient-src/bsd211/sys/sys_inode.c:207-317 | reading what was just written gives it back; any other byte is as it was, or zero where there was none |
| Store.Mount.constructor | src/bsd211fs.c:1047-1081 | a volume with empty files is valid |
| Store.Mount.Read | ancient-src/bsd211/sys/sys_inode.c:101-317 | refines reading from a byte string, for any number of files on one volume; Valid, with the block census, is kept |
| Store.Mount.Write | ancient-src/bsd211/sys/sys_inode.c:101-303 | refines splicing into a byte string; the whole is written if and only if it fits the limits and the free list; the free list pays for the missing blocks of the range and for nothing else; no other file changes; Valid is kept, also when the volume is full |
| Store.Mount.Truncate | ancient-src/bsd211/sys/ufs_inode.c:441-586 | refines resizing a byte string with zeros, if and only if the new end can be reached; ENOSPC or EFBIG otherwise; growing maps the new last block and no other; no other file changes; Valid is kept |
| Bsd29Trunc.Tloop | ancient-src/bsd29/sys/iget.c:450-488 | frees every block of a tree once, the root last; re-reading the root after each recursive call finds its pointers unchanged |
| Bsd29Trunc.Itrunc29 | ancient-src/bsd29/sys/iget.c:378-445 | the free list grows by exactly the blocks of the file, once each; no block outside the file is written |
| Statfs.CountFree | src/bsd29fs.c:1356-1389 | counts the length of every sound free list; on any image and any superblock it stops after at most s_fsize link blocks, at the first table with a bad count, without a link, or with a link out of range, and says which; a count it returns is that of a chain |
| Mkfs.Interleave | src/bsd211fs.c:1047-1081 | the order is a permutation in which each number is the first unused one m behind its predecessor; the search for it ends |
| Mkfs.SkipUsed | src/bsd211fs.c:1062-1069 | finds the first unused number, going round at most once |
| Mkfs.InitFreeList | src/bsd211fs.c:1047-1081 | frees the blocks of the data area below the last group's end, once each and no others, higher groups first and every group in interleaved order: the last block of the volume is among them exactly when n does not divide fsize - 1 |
| Mkfs.LastBlockLost | src/v7fs.c:1335-1362 | on a list of the blocks below the last group's end the last block of the volume is missing exactly when n divides fsize - 1, and no other block of the data area is |
| Mkfs.V6InitFreeList | src/v6fs.c:1283-1317 | the three loops free every block from isize + 2 up to fsize, once, whole groups in interleaved order and the blocks above and below them from the top down, in 16-bit arithmetic |
| NewVolume.FirstBlock | src/bsd211fs.c:1107-1150 | the first block of a new directory: one block moves from the free list to the file, which has the bytes given; no other file changes |
| NewVolume.Format | src/bsd211fs.c:188-272 | mkfs leaves a volume that can be mounted, with a root and a lost+found of type directory and mode 0777, the reserved inode and nothing but free inodes otherwise, the bytes of the two directories, and all blocks but the last accounted for; it fails exactly when the data area has two blocks and the last one is not on the free list |
| FirstDirectories.RootIsDirectory | src/bsd211fs.c:1154-1170 | the bytes of the root are a directory with ., .. and lost+found, with . and .. in their places |
| FirstDirectories.LostFoundIsDirectory | src/bsd211fs.c:1123-1138 | the bytes of lost+found are a directory of two chunks with . and .. |
| FirstDirectories.FirstTree | src/bsd211fs.c:1110-1186 | the names of the two directories form a tree in which the link counts that mkfs stores are right |
| Rings.Insque | src/bsd211adapt.c:194-207 | inserts behind an element of one ring; every other ring is untouched |
| Rings.RingAlone | src/bsd211adapt.c:165-180 | a list head that points at itself is a ring |
| Rings.Remque | src/bsd211adapt.c:352-366 | takes an element out of its ring; every other ring is untouched |
| Rings.InsertTail | ancient-src/bsd211/h/buf.h:143-148 | inserts in front of a ring's head, as its last element; every other ring is untouched |
| HashChains.ChainedMove | ancient-src/bsd211/h/buf.h:119-128 | moving an element to another chain keeps every element on the one chain that is its home |
| BufferCache.Cache.constructor | src/bsd211adapt.c:165-190 | all buffers are on the AGE queue, on the chain for buffers without a block; the cache is a plain copy of the device |
| BufferCache.Cache.Strategy | src/bsd211adapt.c:113-134 | a transfer moves the right contents; an asynchronous one releases the buffer; the panic for a second completion is not reached |
| BufferCache.Cache.Brelse | ancient-src/bsd211/sys/ufs_bio.c:161-202 | the buffer is on exactly one queue again, at the place that its flags demand |
| BufferCache.Cache.Bwrite | ancient-src/bsd211/sys/ufs_bio.c:107-132 | the block's contents become the buffer's, on the device and for later readers |
| BufferCache.Cache.Bdwrite | ancient-src/bsd211/sys/ufs_bio.c:142-156 | the block's contents become the buffer's for later readers; the device is not written |
| BufferCache.Cache.Bawrite | ancient-src/bsd211/h/buf.h:75 | bwrite of a buffer marked asynchronous, which its holder may have filled: the block's contents become the buffer's on the device and for later readers, and the buffer is released to the queue that its flags demand |
| BufferCache.Cache.WriteFilled | ancient-src/bsd211/sys/sys_inode.c:279-292 | the three ways in which rwip lets go of a filled buffer: later readers always get its contents, the device does at once unless the write is delayed, and a block written to its end goes to the AGE queue |
| BufferCache.DirtyUpdate | ancient-src/bsd211/sys/ufs_bio.c:298-342 | changing one buffer changes the number of delayed writes by what that buffer contributes: the measure of the retry loops |
| BufferCache.Cache.Getnewbuf | ancient-src/bsd211/sys/ufs_bio.c:298-342 | takes the first buffer without a delayed write of the AGE queue, else of the LRU queue, else the first of all; delayed writes on the way reach the device, nobody's buffer or contents change, and the loop ends |
| BufferCache.Cache.Search | ancient-src/bsd211/sys/ufs_bio.c:208-250 | the hash chain of a block holds its buffer, if any buffer does |
| BufferCache.Cache.Reassign | ancient-src/bsd211/sys/ufs_bio.c:260-271 | a buffer comes to stand for a block on the block's chain, and there is still at most one buffer for every block |
| BufferCache.Cache.Getblk | ancient-src/bsd211/sys/ufs_bio.c:231-272 | the one buffer of a block, busy now, and otherwise the one that getnewbuf takes; what it holds, if done, are the block's contents; no busy buffer of others changes |
| BufferCache.Cache.Geteblk | ancient-src/bsd211/sys/ufs_bio.c:277-292 | a buffer that stands for no block |
| BufferCache.Cache.Bread | ancient-src/bsd211/sys/ufs_bio.c:25-44 | returns the contents last written to the block |
| BufferCache.Cache.ReadAhead | ancient-src/bsd211/sys/ufs_bio.c:68-88 | brings a block in and releases it; no contents and no busy buffer change |
| BufferCache.Cache.Breada | ancient-src/bsd211/sys/ufs_bio.c:49-101 | like bread, also when the read-ahead evicts the block itself |
| BufferCache.Cache.Bflush | ancient-src/bsd211/sys/ufs_bio.c:422-445 | ends with no idle delayed write; with no buffer busy the device equals the block array |
| BufferCache.AllWritten | ancient-src/bsd211/sys/ufs_bio.c:422-445 | without delayed writes the device is the block array |
| DirEntries.Join | ancient-src/bsd211/h/dir.h:35-55 | tilings of adjacent ranges join; live entries concatenate and free space adds up |
| DirEntries.TiledSize | ancient-src/bsd211/sys/ufs_namei.c:857-881 | a tiled range has a multiple of 4 bytes, and at least the room counted as free |
| DirEntries.Moved | ancient-src/bsd211/sys/ufs_namei.c:914-992 | records mean the same wherever their bytes lie |
| Compaction.CompactingStep | ancient-src/bsd211/sys/ufs_namei.c:958-975 | one turn of the compaction loop keeps the live entries, in order and without gaps, and clobbers no record still to be taken |
| Compaction.Squeeze | ancient-src/bsd211/sys/ufs_namei.c:951-975 | the whole loop, in place in the block's buffer |
| Compaction.Compact | ancient-src/bsd211/sys/ufs_namei.c:945-989 | the region holds the old live entries and the new one, still exactly tiled; the bytes around it are unchanged; free space shrinks by DIRSIZ |
| Directories.EntryInserted | ancient-src/bsd211/sys/ufs_namei.c:887-992 | an entry put into a region is put into the directory, and no other chunk changes |
| Directories.NoteSlot | ancient-src/bsd211/sys/ufs_namei.c:452-473 | the slot variables keep describing a region with room, or the free space of the chunk so far |
| Directories.SearchLoop | ancient-src/bsd211/sys/ufs_namei.c:401-500 | the search passes every record once and ends, skipping chunks from a mangled entry on; a slot is reported exactly when a chunk has room |
| DirFile.Directory.constructor | ancient-src/bsd211/sys/ufs_syscalls.c:1176-1270 | a new directory holds exactly . and .., at the places where a struct dirtemplate has them |
| DirFile.Directory.NameiLookup | ancient-src/bsd211/sys/ufs_namei.c:366-520 | found exactly when a live entry has the name, from any starting chunk, with its inode number |
| DirFile.Directory.NameiCreate | ancient-src/bsd211/sys/ufs_namei.c:392-545 | when the name is new: a region with room, or a new chunk exactly when no chunk has room; nothing live lies behind endoff |
| DirFile.Directory.NameiDelete | ancient-src/bsd211/sys/ufs_namei.c:570-640 | finds the record, and the record before it in the chunk |
| DirFile.Directory.Direnter | ancient-src/bsd211/sys/ufs_namei.c:887-992 | on success the live entries are the old ones with the new one put in, after compaction and truncation at endoff; names stay unique; . and .. stay in their places in the first 20 bytes; on failure nothing changed |
| DirFile.Directory.Dirremove | ancient-src/bsd211/sys/ufs_namei.c:1006-1035 | the live entries are the old ones without the removed one; every chunk stays tiled; . and .. stay in their places unless one of them is removed |
| DirFile.Directory.Dirrewrite | ancient-src/bsd211/sys/ufs_namei.c:1041-1051 | one name has another inode number, nothing else changed; . and .. stay in their places |
| DirDots.DotsEntered | ancient-src/bsd211/sys/ufs_namei.c:945-989 | compaction of a region leaves . and .. where they were |
| DirFile.Directory.DotDot | ancient-src/bsd211/sys/ufs_namei.c:1160-1183 | the inode number at the place of .. in the first 20 bytes is that of the entry .., in every state that the operations on a directory lead to |
| DirFile.Directory.SetDotDot | ancient-src/bsd211/sys/ufs_syscalls.c:1067-1084 | writing the template back changes the inode number of the entry .. and no other entry |
| DirFile.Directory.Dirempty | ancient-src/bsd211/sys/ufs_namei.c:1097-1138 | the scan ends, and its answer is whether all live entries are . or the .. of the given parent |
| DirNames.EmptyNames | ancient-src/bsd211/sys/ufs_namei.c:1097-1138 | that is emptiness on the level of names |
| DirFile.OnlyEntry | ancient-src/bsd211/sys/ufs_namei.c:480-487 | a name has one inode number |
| DirFile.ChunksDropped | ancient-src/bsd211/sys/ufs_namei.c:989-990 | cutting chunks without live entries off the end keeps the directory's entries |
| DirNames.InsertedName | ancient-src/bsd211/sys/ufs_namei.c:887-1035 | on the level of names, direnter adds one name that was not there and dirremove takes it away: each undoes the other |
| DirNames.RewrittenName | ancient-src/bsd211/sys/ufs_namei.c:1041-1051 | on the level of names, dirrewrite changes the inode of one name |
| PathWalk.Walker.Namei | ancient-src/bsd211/sys/ufs_namei.c:114-846 | a lookup ends for every path and every web of symbolic links, with the outcome the path means, as PathMeaning.WalkIsWay has it, or with ENFILE when the inode table is full; references and locks are balanced, no buffer stays held and no inode is waited for |
| PathWalk.Walker.Walk | ancient-src/bsd211/sys/ufs_namei.c:172-846 | the turns from one directory on end with the same outcome, whatever the table of inodes has room for in between |
| PathWalk.Walker.Component | ancient-src/bsd211/sys/ufs_namei.c:172-846 | one component: the same outcome, references, locks and held buffers as the definition, on every exit, with ENOTDIR, EACCES, ENOENT, ELOOP and a full table |
| PathMeaning.NameProblemIs | ancient-src/bsd211/sys/ufs_namei.c:176-196 | a name is refused exactly when it is too long or has an 8-bit character, with the error of the first character at fault |
| PathMeaning.LinkExpanded | ancient-src/bsd211/sys/ufs_namei.c:766-815 | behind a link, at the end of the path or before a slash, the walk goes on with what the link holds and all of the rest, from the root or from the same directory, with one link less; ENAMETOOLONG and, after that, ELOOP exactly when there is no room or no link left |
| PathMeaning.NamePassed | ancient-src/bsd211/sys/ufs_namei.c:816-830 | behind any other name the walk goes on with the rest from there, or ends there |
| PathMeaning.NameMissing | ancient-src/bsd211/sys/ufs_namei.c:172-846 | a name that is not there ends the walk with ENOENT, whatever is behind it |
| PathMeaning.WalkIsWay | ancient-src/bsd211/sys/ufs_namei.c:172-846 | a walk comes to an outcome, an inode or an error, if and only if there is a way to it: a chain of points, each led to by a name of the path or by what a link holds, that ends there |
| PathMeaning.BehindLink | ancient-src/bsd211/sys/ufs_namei.c:793-794 | a path through a symbolic link to a directory finds the file behind it, whether or not links are followed at the end |
| PathWalk.FollowedIsNoLink | ancient-src/bsd211/sys/ufs_namei.c:766-815 | a walk that follows links never returns a link |
| PathWalk.SelfLink | ancient-src/bsd211/sys/ufs_namei.c:770-780 | a link that names itself gives ELOOP, whatever number of links is allowed |
| NameTree.ConservedPut | ancient-src/bsd211/sys/ufs_syscalls.c:252-301 | one more entry and one more link keep every count equal to its number of entries |
| NameTree.ConservedDrop | ancient-src/bsd211/sys/ufs_syscalls.c:353-392 | one entry less and one link less keep every count equal to its number of entries |
| NameTree.ConservedUnique | ancient-src/bsd211/sys/ufs_syscalls.c:252-301 | the entries determine the link counts |
| NameTree.UpMoved | ancient-src/bsd211/sys/ufs_syscalls.c:913-941 | after a move below a directory that is not below the moved one, every directory still reaches the root |
| NameTree.MovedBelowItself | ancient-src/bsd211/sys/ufs_namei.c:1135-1196 | a move below itself cuts a directory off from the root: the check of checkpath is necessary |
| TreeMoves.TreeMade | ancient-src/bsd211/sys/ufs_syscalls.c:1185-1297 | mkdir keeps the tree: . and .. right, one name for each directory, all reach the root |
| TreeMoves.TreeRemoved | ancient-src/bsd211/sys/ufs_syscalls.c:1300-1379 | rmdir of an empty directory keeps the tree |
| TreeMoves.TreeMoved | ancient-src/bsd211/sys/ufs_syscalls.c:1054-1094 | moving a directory, with its .. set, keeps the tree |
| CallSpecs.NewName | ancient-src/bsd211/sys/ufs_syscalls.c:252-301 | a new entry keeps the tree exactly when it does not name a directory |
| CallSpecs.NameDropped | ancient-src/bsd211/sys/ufs_syscalls.c:353-392 | an entry can go from the tree exactly when it does not name a directory |
| Syscalls.FileTree.Link | ancient-src/bsd211/sys/ufs_syscalls.c:252-301 | adds a name and a link, or changes nothing; counts stay right on every exit; the tree is lost exactly when the superuser links a directory |
| Syscalls.FileTree.Unlink | ancient-src/bsd211/sys/ufs_syscalls.c:353-392 | removes a name and a link, and the inode with its last one; the tree is lost exactly when the superuser unlinks a directory |
| Syscalls.FileTree.Maknode | ancient-src/bsd211/sys/ufs_syscalls.c:1121-1170 | a new file with one link, or no change |
| Syscalls.FileTree.Mkdir | ancient-src/bsd211/sys/ufs_syscalls.c:1185-1297 | a new directory with . and .. and right counts, every other entry as it was, or no change, but for one exit: when the entry cannot be made the parent keeps a link too many, and only then are counts wrong |
| Syscalls.FileTree.Rmdir | ancient-src/bsd211/sys/ufs_syscalls.c:1300-1379 | removes exactly an empty directory that is not the root, its name and its own entries and no others; each error on exactly its condition; counts and tree are kept on every exit; emptiness is what DirFile.Directory.Dirempty and DirNames.EmptyNames decide |
| Syscalls.FileTree.Checkpath | ancient-src/bsd211/sys/ufs_namei.c:1145-1196 | ends, EEXIST for the source itself and EINVAL for what is below it, and allows exactly the targets that have the source neither as themselves nor above them; its .. is the one that DirFile.Directory.DotDot reads |
| Syscalls.FileTree.Rename | ancient-src/bsd211/sys/ufs_syscalls.c:824-1115 | succeeds exactly when allowed and not marked, and then the new name stands for the source, the old one is gone, .. of a moved directory is its new parent, a replaced directory holds nothing and every other entry is as it was; each error on exactly its condition; link counts and tree are kept exactly when none of the two leaking paths is taken; the mark of a directory stays exactly when nothing moves and somebody holds it |
| Syscalls.FileTree.RenameTarget | ancient-src/bsd211/sys/ufs_syscalls.c:889-1005 | the checks between the two changes of the count: it goes on exactly when the source can be moved and the target replaced, and each error has exactly its condition |
| Syscalls.FileTree.RenameLinks | ancient-src/bsd211/sys/ufs_syscalls.c:942-1094 | the steps of the code move exactly the one entry, with what belongs to it, with the counts they really leave |
| RenameSpec.RenamedValid | ancient-src/bsd211/sys/ufs_syscalls.c:942-1094 | an allowed rename keeps the tree, and its right counts are those of removal and move |
| RenameSpec.RenamedMoves | ancient-src/bsd211/sys/ufs_syscalls.c:942-1094 | removal of the target followed by the move is the one change of the names that keeps the promise of rename, which is stated without either |
| RenameSpec.StepwiseRenamed | ancient-src/bsd211/sys/ufs_syscalls.c:942-1094 | entering the new name, emptying the target, changing .. and removing the old name, in that order, is removal and move |
| RenameSpec.EnteredCountsRenamed | ancient-src/bsd211/sys/ufs_syscalls.c:942-1094 | the link counts that the steps leave are the right ones, but for one too many when a directory replaces another beside it |
| RenameSpec.RenameLosesCount | ancient-src/bsd211/sys/ufs_syscalls.c:967-1033 | a file system of three directories in which a rename leaves the root with a link count of 4 for 3 entries |
| CallRuns.MkdirLosesCount | ancient-src/bsd211/sys/ufs_syscalls.c:1273-1281 | a run: mkdir in a root without room for the entry leaves it with a link count of 3 for two entries |
| CallRuns.RenameFails | ancient-src/bsd211/sys/ufs_syscalls.c:952-966 | a run: a rename into a directory without room for the entry leaves that with a link count of 3 for two entries, and the source marked |
| CallRuns.RefusedNext | ancient-src/bsd211/sys/ufs_syscalls.c:861-874 | a run, in any tree: after a rename that failed, an allowed rename of the same directory is refused as long as it is held |
| PathWalk.SameWalk | ancient-src/bsd211/sys/ufs_namei.c:172-846 | a walk depends on nothing but the names it looks up and the inodes it meets |
| RenamePaths.ThirdLookup | ancient-src/bsd211/sys/ufs_syscalls.c:1034-1056 | after the new name has been entered the old path leads to the old entry, if its walk neither looks up the target nor anything in it; always, if there was no target |
| RenamePaths.LostEntry | ancient-src/bsd211/sys/ufs_syscalls.c:1034-1056 | an allowed rename, of t/../x/s to t, after which the walk of the old path ends in ENOENT: the panic for a lost directory entry is reached |
| NameCaching.StaleUnlessWrapped | ancient-src/bsd211/h/inode.h:153-156 | a new id makes an inode's cache entries stale exactly as long as the counter does not wrap; at the wrap they all become current |
| NameCaching.NameCache.CacheInval | ancient-src/bsd211/h/inode.h:153-156 | entries for the inode are stale from now on, all others as they were |
| NameCaching.NameCache.Iget | ancient-src/bsd211/sys/ufs_inode.c:102-190 | one in-core inode for a number; the free slot gets the next id when it is loaded, no entry for the inode that was in it is current from then on, and all other entries are as they were |
| NameCaching.NameCache.Lookup | ancient-src/bsd211/sys/ufs_namei.c:249-357 | whatever the cache answers is what the directory says; a name looked up to be deleted or rewritten is not in the cache afterwards |
| NameCaching.NameCache.Insert | ancient-src/bsd211/sys/ufs_namei.c:727-762 | the name takes the least recently used place; the panic for a duplicate is not reached |
| NameCaching.NameCache.Create | ancient-src/bsd211/sys/ufs_syscalls.c:252-301 | cache and directories agree after a new name |
| NameCaching.NameCache.Unlink | ancient-src/bsd211/sys/ufs_syscalls.c:353-392 | cache and directories agree after a name is gone |
| NameCaching.NameCache.Mkdir | ancient-src/bsd211/sys/ufs_syscalls.c:1185-1297 | cache and directories agree after mkdir, also when the inode number is that of a directory that is gone |
| NameCaching.NameCache.Rmdir | ancient-src/bsd211/sys/ufs_syscalls.c:1300-1379 | cache and directories agree after rmdir, because the parent's id changes |
| NameCaching.NameCache.Rename | ancient-src/bsd211/sys/ufs_syscalls.c:824-1115 | cache and directories agree after rename, whether source and target are in core or loaded into two free slots, and whether it succeeds, is refused or cannot make the entry; the source stays in core |
| FreeInodes.LinkedRemove | ancient-src/bsd211/sys/ufs_inode.c:267-289 | taking an inode out by its back link keeps the links of all others |
| FreeInodes.FreeList.constructor | ancient-src/bsd211/sys/ufs_inode.c:44-69 | all inodes are on the list, in order, with right links at both ends |
| FreeInodes.FreeList.TakeHead | ancient-src/bsd211/sys/ufs_inode.c:160-173 | takes the first inode; the list stays right although the tail pointer dangles when it empties |
| FreeInodes.FreeList.Grab | ancient-src/bsd211/sys/ufs_inode.c:267-289 | takes an inode out of any place of the list |
| FreeInodes.FreeList.Append | ancient-src/bsd211/sys/ufs_inode.c:336-356 | puts an inode at the end, also of an empty list with its dangling tail pointer |
| InodeTables.InodeTable.constructor | ancient-src/bsd211/sys/ufs_inode.c:44-69 | every in-core inode is free and on no hash chain |
| InodeTables.InodeTable.Ifind | ancient-src/bsd211/sys/ufs_inode.c:74-84 | finds an inode exactly when it is in core |
| InodeTables.InodeTable.Iget | ancient-src/bsd211/sys/ufs_inode.c:102-256 | the one in-core copy of an inode with one more reference, as its users last left it; the table is full exactly when nothing is free; no other inode changes for anybody |
| InodeTables.InodeTable.Igrab | ancient-src/bsd211/sys/ufs_inode.c:267-289 | one more reference; off the free list when it was the first |
| InodeTables.InodeTable.Irele | ancient-src/bsd211/sys/ufs_inode.c:315-359 | one reference less; with the last one the inode is written, freed if it has no links, and put at the end of the free list; readers of any inode see no change |
| InodeTables.InodeTable.Iupdat | ancient-src/bsd211/sys/ufs_inode.c:369-428 | the disk has the inode as it is in core; readers see no change |
| InodeTables.AllOnDisk | ancient-src/bsd211/sys/ufs_syscalls2.c:180-204 | once nothing is marked as changed, the inode blocks hold every inode as its users see it |
| InodeBlocks.PlaceUnique | ancient-src/bsd211/h/fs.h:87-88 | every inode has its own place in the inode blocks |
| InodeBlocks.DinodeRoundTrip | ancient-src/bsd211/sys/ufs_inode.c:369-428 | an inode that iupdat has stored is read back by iget with the same mode, links, owner, group, size, block addresses and flags |
| InodeBlocks.OtherDinode | ancient-src/bsd211/sys/ufs_inode.c:369-428 | storing an inode changes no other inode of the block |
| FileSets.StoredOne | ancient-src/bsd211/sys/ufs_inode.c:369-428 | storing one inode keeps all inodes in their places |
| FileSets.FileChanged | ancient-src/bsd211/sys/ufs_inode.c:369-428 | when the blocks of one file change, every file is still in order, no block is in two places, all blocks together are the same, and no byte of another file changed |
| FileSets.FileFreed | ancient-src/bsd211/sys/ufs_inode.c:321-335 | freeing an inode takes exactly the blocks that it still has out of the census, and leaves every other file in order |
| FileSets.FilesFrame | ancient-src/bsd211/sys/ufs_inode.c:369-428 | writes to inode blocks and superblock change no byte of any file |
| FileSets.ConsistentStart | src/bsd211fs.c:117-164 | an image that can be mounted is a consistent volume in use, with the files that it has |
| FileSets.ConsistentSaved | ancient-src/bsd211/sys/ufs_syscalls2.c:139-176 | once the superblock is saved and all inodes are in their blocks, the disk by itself can be mounted, and has all files as their users see them |
| Durability.Mounted.constructor | src/bsd211fs.c:96-164 | mounting reads nothing but the superblock; every image that can be mounted, whatever the addresses of its free inodes and devices, gives a valid volume, with the files of the image |
| Durability.Mounted.Iget | ancient-src/bsd211/sys/ufs_inode.c:102-256 | the inode, read from its block through the buffer cache when it is not in core, is the file as its users last left it; no file changes; the table is full exactly when nothing is free |
| Durability.Mounted.Iupdat | ancient-src/bsd211/sys/ufs_inode.c:369-428 | the inode is in its block, which no reader of any file notices; no block outside the inode list changes |
| Durability.Mounted.Truncate | ancient-src/bsd211/sys/ufs_inode.c:441-586 | on the whole volume: the file is resized if and only if the new end can be reached, its inode says so, growing maps the new last block and no other, the inode is marked as changed exactly when its size or its blocks are others, no other file changes and no block is lost |
| Durability.Mounted.Write | ancient-src/bsd211/sys/sys_inode.c:101-303 | on the whole volume: what could be written is spliced into the file, the free list pays for the missing blocks of the range and for nothing else, no other file changes and no block is lost |
| Durability.Mounted.FreeFile | ancient-src/bsd211/sys/ufs_inode.c:321-335 | the blocks of an inode without links all return to the free list, unless its size is 0 already: then all that it has are lost; no other file changes |
| Durability.Mounted.Irele | ancient-src/bsd211/sys/ufs_inode.c:315-359 | one reference less; with the last one the inode is freed if it has no links, and written; no other file changes, and no block is lost but by freeing a file of size 0 |
| Durability.Mounted.SyncInodes | ancient-src/bsd211/sys/ufs_syscalls2.c:184-204 | every inode in use that is not locked is written into its block, with references as before; no file changes, and no block outside the inode list, the superblock included |
| Durability.Mounted.WriteSuper | ancient-src/bsd211/sys/ufs_syscalls2.c:165-174 | the superblock on the disk has the free list; no file changes |
| Durability.Mounted.Sync | ancient-src/bsd211/sys/ufs_syscalls2.c:139-176 | with no inode locked and no buffer held, the disk by itself can be mounted afterwards, whether or not the superblock was marked as modified: every inode and every byte of every file as its users see them, the free list in the superblock, and all blocks accounted for; the superblock changes only if it was marked |
| Durability.Mounted.Commit | src/bsd211fs.c:916-929 | afterwards everything is on the disk if and only if the superblock was marked as modified or everything was there before |
| Durability.Init | src/bsd211fs.c:96-164 | mounting ends with everything on the disk and no mark |
| Durability.Restart | src/bsd211fs.c:172-180 | shutting down and mounting again loses nothing: same inodes, same bytes, same free list, on any valid volume |
| Durability.ChmodNotCommitted | src/bsd211fs.c:916-929 | a run: a change of mode after a sync is not on the disk after the next one |
| Durability.FreedWithBlock | ancient-src/bsd211/sys/ufs_inode.c:321-335 | a run: a write that fails for want of a second block leaves an empty file with a block, which belongs to nothing any more when the file is freed |

## Left out

- Read-only mounts, I/O errors, signals, quotas, mounted-on directories, the immutable and append flags, times, and
  user and group mapping. Permissions are those of searching a directory, in `PathWalk`.
- `ialloc` and `ifree`: inode numbers for new files are parameters of the calls on names.
- That a write clears the set-id bits of a file, for everybody but the superuser.
- Pipes, reading and writing of devices, and the 32-bit overflow of an offset plus a count in `rwip`.
- `Durability.Mounted.Truncate`: of inodes that have blocks, neither free nor devices.
- `Durability.Mounted.Write`: likewise.
- `Volume.FileSystem.RwipRead`: the read-ahead block is not stated here, because the volume is the plain array that the
  buffer cache refines; `u_error` is clear, as at the start of a system call.
- `Volume.FileSystem.RwipWrite`: nor is the choice between `bwrite`, `bawrite` and `bdwrite`, which
  `BufferCache.Cache.WriteFilled` has and `Durability.Mounted.Settle` leaves open; `u_error` is clear here too.
- `Superblock.SuperRoundTrip`: the sizes, the free table and the count of free blocks; the other fields of the
  superblock, the list of free inodes among them, are whatever the caller gives.
- `fsync` of a single file, and the order of writes to the disk between two syncs.
- `BufferCache`: there is one device, block numbers are those of the file system, without the conversion to sectors
  (`fsbtodb`), and `blkflush` is not modelled. A busy buffer of the wanted block, or no idle buffer at all, is a wait
  that would not end in the port; both are preconditions.
- `Durability.Mounted.Settle`: the blocks that the storage engine changes in a call (truncate, write, the freeing of a
  file) reach the buffers at its end, not one by one while other buffers are held.
- `Durability.Mounted.Iget` needs the inode not to be locked: a locked one would be waited for, without end.
- `Durability.Mounted.Sync` needs that no inode is locked, as between two system calls of the port; a locked inode is
  passed over, which `Durability.Mounted.SyncInodes` states.
- `InodeTables.InodeTable.Irele`: what `itrunc` leaves of a freed inode's addresses is a parameter here;
  `Durability.Mounted.Irele` computes it. Neither has `ifree`.
- `InodeTables.InodeTable.Iget` needs the inode not to be locked, for the same reason as above.
- The hash chains of the name cache are a flag and a search over all entries; its LRU chain is a list.
- `NameCaching.NameCache.Rename`: whether the rename is allowed, and whether the entry can be made, are parameters; the
  second walk of the old path is not made.
- `Directories.SearchLoop` needs every chunk to consist of good records up to its end or to a record of length 0. The
  complete check of each record, which is off by default, is not modelled, nor is a size that is no multiple of 512.
- `DirFile.Directory.Dirempty`: on a directory with a mangled chunk, an empty name, or a record in the last 8 bytes that
  is free or ".", only termination is stated; the code itself does not handle corrupted directories.
- `Syscalls.FileTree.Rmdir` works on names; `DirFile.Directory.Dirempty` has the bytes that the code reads for it.
- `Syscalls.FileTree.Checkpath` works on names; `DirFile.Directory.DotDot` has the bytes that the code reads for it.
- `Syscalls.FileTree.Rename`: the second walk of the old path is taken to find the same entry; `RenamePaths.ThirdLookup`
  has the condition. Whether somebody else holds the source is a parameter.
- `Syscalls`: directories are given, paths are resolved in `PathWalk`. Whether an entry can be made is a parameter,
  which stands for the error of `DirFile.Directory.Direnter` under the condition of `Volume.EntryFits`. An inode
  without links is gone at once, also while somebody holds it.
- `PathWalk.Walker.Namei`: only lookups without the parent locked.
- `PathWalk.Walker.Component`: likewise.
- `Mkfs.V6InitFreeList` lists the calls of `free`, whose sixth edition code is not part of this model.
- `Statfs.CountFree` is stated for the layout of 2.11BSD free tables, with which seventh edition and 2.9BSD tables
  agree but for their position.
- `NewVolume.Format`: the size of the inode table is given, within the limits that `bsd211fs_mkfs` sets; an unformatted
  disk is an array of blocks.
- FUSE requests, option parsing and host I/O.
