# A model of the Simple File System and the distributed file system on top of it

The project models, in Dafny, two programs of the repository and proves properties of them.

**The Simple File System** (`PA2/fs.c`). A disk of 512-byte blocks holds a superblock (block 0), a freemap (block 1), a linked list of directory blocks with 97 inode slots each, and for every file an inode and a chain of frames that hold 127 content-block ids each. All of them take their blocks from one pool. `FileSystem.Sfs` is the class with the disk, the in-memory freemap and superblock, and the descriptor table; its methods follow the functions of the program, block write by block write. A ghost tree (directories, slots, files, chains) and a ghost map from block to role say what the disk stands for.

**The distributed file system** (`PA3`). A name node keeps a registry of datanodes and a table of files, and gives the blocks of a file to the datanodes in turn. Clients cut files into blocks of 1024 bytes, send them to the datanodes and fetch them again. Datanodes keep their blocks as files of a Simple File System. `NameNode.Server`, `DataNode.Service` and the methods of `Client` are the programs; `Protocol` and `NameNodeSteps` are state machines over their steps.

## How it is built

| files | what they hold |
|---|---|
| `Common` | the size of a block, the key of a block, and an optional value |
| `Bits`, `Allocator` | freemap words, bits and masks; the search for the first free block |
| `Layout`, `Steps`, `Unlinks` | the blocks, the tree they hold, and what one block write does to it |
| `Reachability` | the image as plain links between blocks: what can be reached from block 0, and when an image is safe |
| `Store` | the invariant of the whole store, write by write |
| `Contents`, `ByteFile`, `Copying`, `Chains`, `Effects` | the bytes of files, copy loops, growing chains, and the effects of whole operations |
| `Paths`, `Lookup` | names of directories and files |
| `FileSystem` | the class `Sfs` |
| `AbstractFs`, `Session` | the file system as its callers see it, and `Shell`, which refines it over all runs |
| `Laws` | what each operation does in terms of its arguments and the free blocks alone, and laws of runs |
| `Scripts` | sequences of operations that undo each other |
| `BlockStore`, `DataNode`, `Composition` | a datanode's blocks as files, its service, and the service put in the place of a datanode of the whole system |
| `RoundRobin`, `NameNode`, `NameNodeSteps` | the assignment of blocks, the name node, and its two threads interleaved |
| `Wire`, `Client`, `Protocol` | blocks on their way, the client's loops, and the whole distributed system |
| `RoundTrips` | whole journeys of a file, and that each of their steps can be taken |
| `Deviations`, `DfsDeviations` | the code as written against the operations of the model |

A statement about the disk between two block writes is a statement about `log`, the ghost list of all images the disk has gone through: `LogGrows(a, b)` says that every image added to the list is safe. An image is safe (`Reachability.SafeImage`) when every block that can be reached from block 0 is marked in the freemap on the disk, no block is reached in two ways, and no chain comes back to itself. `spare` is the set of blocks that are marked but have no place in the tree. It is empty between operations as long as only empty directories are removed, and then the marked blocks are exactly the reachable ones and the freemap block (`ExactMap`).

The state machine `Protocol` and the imperative classes use the same functions: `NameNode.Serve` (proved of `Server.RequestsDispatcher`), `Wire.Handled` and `Wire.Answer` (proved of `DataNode.Service.RequestsDispatcher`), and `Client.Packets` (proved of `PushFile` and `ModifyFile`). `Composition.Replay` runs a `Service` over its own file system on the packets that a datanode receives in a run of `Protocol`: it stores and answers what the run says.

`Session.Shell` is a careful caller: it finds out whether a call may be made and whether the blocks it takes are free, and only then makes it. `Run` returns a snapshot between any two operations, with the disk, the tree it holds and the log, and states of each step when it is refused, what it takes, and which images it adds.

## Repairs

The program deviates from its own documentation in some places. The operations of the model do what is meant there. For most of these places the code as written is modelled beside it, with the exact condition under which it does the same.

| place | as written | in the model | exact condition |
|---|---|---|---|
| `PA2/fs.c:846-857`, `979-990` | `strncpy` for data; the buffer does not move on | bytes are copied, the buffer moves on | `StrncpyExact`, `WriteExactly`, `ReadExactly` for each buffer; `WriteInOneBlock`, `WriteExact`, `ReadExact` for each range |
| `PA2/fs.c:801`, `896` | id array of `length / 512 + 1` entries | as long as needed | `IdArrayLongEnough` |
| `PA2/fs.c:227`, `258-259` | one id too many at the end of the chain; block 0 is then taken for a frame | stops where the chain ends | `LastIdInChain` |
| `PA2/fs.c:224-246` | the search starts in the first frame | `start / 127` frames are skipped | `FirstFrameOnly`, `FirstFrameFilled` |
| `PA2/fs.c:160-186` | new frames are linked to the first one | to the last one | `ResizeKeepsFrames` |
| `PA2/fs.c:451-453` | a directory is removed without a look at its slots | the same; `Shell` asks for an empty one | `RmdirExact` |
| `PA2/fs.c:696` | a second slot is cleared, beyond the array for inode ids from 97 on | only the file's own | `SecondSlot` |
| `PA2/fs.c:896-962` | a count of set entries that does not end at an unset one, begins in the wrong frame and goes on in block 0 behind the chain; the length asked for is returned whatever the file's size | the read is cut at the file's size, as lines 875-876 say | `ReadEnds`, `ReadTruncates`, `ReadCopies`, `WholeFramesRead`, `NewFileRead` |
| `PA2/fs.c:1045` | end of file only beyond the end | left out as an operation | `EofExact`, `ReadingNeverEnds` |
| `PA2/fs.c:393-428` before 343 | in a file system that is not mounted the first directory is written over block 0 | the datanode's store is mounted | `FirstDirectory` |
| `PA2/fs.c:63` | scans 512 words, the block has 128 | scans 128 | `ScanExact` |
| `PA3/namenode/dfs_namenode.c:316-318`, `325-350` | looks behind the last entry, one datanode for all blocks, count unchanged | goes on behind the last block, counts the new ones | `UpdateCounts`, `UpdatePlacement`, `UpdatePlacementAny` |
| `PA3/client/dfs_client.c:70-96` | all pieces go to one block | the block index moves on | `ModifiesOneBlock` |
| `PA3/client/dfs_client.c:228`, `PA3/datanode/dfs_datanode.c:113` | `strcpy` for data | bytes are copied | `StrcpyExact`, `StrcpyToCleared` |
| `PA3/datanode/exta2.c:12-22` | reading a block that is not stored creates its file and then never ends, as the read above | gives no bytes, and the empty file stays | `NewFileRead` |

Followed as written although one might expect something else: `sfs_remove` leaves the descriptor as it is (731-734 change a copy); a name node refuses id 10 although it has a slot for it (105); a second push of a file adds entries behind the old ones before it sets the count (202-204, see `PushTwice`), and keeps the old file size; a modification that does not begin at a block puts its bytes elsewhere (65, see `ModifiesInPlace`); a datanode that registers for the first time is visible with a blank address for a moment (122-145, see `BlankAddress`).

## Model

| member | source | states |
|---|---|---|
| Bits.MarkUpdate | PA2/fs.c:85-87 | setting the mask's bit of a freemap word marks that block and no other; clearing it unmarks that block and no other |
| Bits.FreeAfterAlloc | PA2/fs.c:109-128 | freeing a block right after it was allocated gives back the same freemap words |
| Bits.FreeCountUpdate | PA2/fs.c:85-87 | marking an unmarked block takes one from the number of free blocks, unmarking a marked one adds one |
| Bits.FreeCountPositive | PA2/fs.c:101-103 | the number of free blocks is zero exactly when all blocks are marked |
| Allocator.FindFreeBit | PA2/fs.c:55-103 | the nested word and mask loops find the least unmarked block, and 0 only when every block is marked |
| Reachability.ConsistentIsSafe | PA2/fs.h:18-54 | in an image that holds a tree every block reached from block 0 is marked, has one parent, and no chain is cyclic |
| Reachability.RolesAreReached | PA2/fs.h:18-54 | the blocks with a place in the tree are exactly those that the links on the disk reach from block 0, and the freemap block |
| Store.SoundIsExact | PA2/fs.c:45-128 | the marked blocks are exactly the reachable ones and the freemap block if and only if no marked block is spare |
| Store.AllocSound | PA2/fs.c:85-97 | marking and clearing an unmarked block: both images are safe, the block becomes spare, no file's bytes change |
| Store.FreeSound | PA2/fs.c:117-127 | freeing a spare block leaves a safe image, the tree and all bytes, and one block more free |
| Store.FreeIsRest | PA2/fs.c:45-128 | the free blocks are all but those of the tree and the spare ones |
| Store.AppendDirSound | PA2/fs.c:388-418 | linking a cleared block behind the last directory gives a safe image of the tree with one directory more |
| Store.NameDirSound | PA2/fs.c:420-428 | writing the name into the new directory block keeps the image safe and all files |
| Store.AddFileSound | PA2/fs.c:616-620 | entering a cleared block in a free slot adds an empty file, in a safe image, and changes no other file |
| Store.SetHeaderSound | PA2/fs.c:191-192 | writing an inode with a larger size keeps the image safe and, because unused bytes are zero, the file's bytes |
| Store.LinkFrameSound | PA2/fs.c:170-174 | linking a cleared block behind the last frame, or to the inode, adds a frame of unset entries in a safe image |
| Store.FillFrameSound | PA2/fs.c:246-256 | writing a frame whose unset entries got cleared blocks keeps the image safe and all bytes |
| Store.WriteDataSound | PA2/fs.c:860-860 | writing a content block changes the bytes of that block of that file, and of no other file |
| Store.UnlinkFileSound | PA2/fs.c:680-697 | clearing a file's slot leaves a safe image without the file; all its blocks become spare, other files keep their bytes |
| Store.OrphansOfEmpty | PA2/fs.c:451-453 | removing a directory makes blocks unreachable if and only if one of its slots is in use |
| Store.UnlinkDirSound | PA2/fs.c:451-499 | the image after the free and before the unlink is unsafe; the one after the unlink is safe, without the directory, and its files' blocks are spare |
| ByteFile.ReadBack | PA2/fs.c:780-787 | reading the range that was written gives the bytes that were written |
| ByteFile.ReadElsewhere | PA2/fs.c:780-787 | reading a range that a write does not meet gives what it gave before |
| ByteFile.GapIsZero | PA2/fs.c:780-787 | a gap between the old end of a file and a write reads as zeros |
| ByteFile.WriteInPieces | PA2/fs.c:866-868 | writing in two pieces one behind the other is writing them at once |
| ByteFile.ReadGives | PA2/fs.c:873-880 | a read that ends in the file gives all bytes asked for, one that reaches its end gives those from the cursor to the end, one behind the end none |
| ByteFile.PiecesJoin | PA2/fs.c:880-1001 | reads one after the other, each from where the one before has left the cursor, are one read of all their lengths, up to the end of the file |
| Copying.PatchSound | PA2/fs.c:832-860 | one round of the copy loop replaces exactly its bytes of the file and of no other, in a safe image with the same freemap and zeros behind the size |
| Copying.PatchIsOverwrite | PA2/fs.c:808-866 | a file grown to the size it needs and patched holds the old bytes, a zero gap and the written bytes |
| Copying.RoundsExact | PA2/fs.c:829-868 | the copy loop goes through ceil((cur % 512 + n) / 512) blocks, never more than the ids it is given |
| Copying.FramesAreFresh | PA2/fs.c:165-184 | entries of new frames are distinct blocks that were not marked before and hold zeros |
| Chains.NeedsAreBounded | PA2/fs.c:798-822 | the blocks a write takes are bounded by the frames it adds and the entries under its range |
| Chains.FrameCountIs | PA2/fs.c:141-192 | a file has the least number of frames of 127 * 512 bytes that hold it, and at least one |
| Chains.MissingIs | PA2/fs.c:246-248 | what a range takes is the number of its entries that lie in the chain and are 0 |
| Chains.ByteOf | PA2/fs.h:18-54 | byte p of a file is byte p % 512 of the block named by entry p / 512 % 127 of frame p / 65024 |
| Chains.FillingTakes | PA2/fs.c:246-248 | filling a range of entries takes one block for each missing entry in the chain |
| Chains.GrowthTakes | PA2/fs.c:160-186 | growing a chain takes 128 blocks for each frame it gains |
| FileSystem.Sfs.AllocBlock | PA2/fs.c:45-104 | gives the least free block, marked on the disk and cleared, and 0 with nothing changed when the disk is full or the superblock not loaded; never 0 or 1 otherwise; no file changes |
| FileSystem.Sfs.TakeBlock | PA2/fs.c:85-97 | marks a block and then clears it, both images safe |
| FileSystem.Sfs.FreeBlock | PA2/fs.c:109-128 | unmarks exactly the block, on the disk and in memory |
| FileSystem.Sfs.ReadFreemap | PA2/fs.c:60-60 | the freemap in memory becomes the one on the disk |
| FileSystem.Sfs.FlushFreemap | PA2/fs.c:31-40 | block 1 becomes the freemap in memory, nothing else changes |
| FileSystem.Sfs.Mkfs | PA2/fs.c:305-336 | an empty tree, blocks 0 and 1 marked and no other, no open descriptor, and a cleared superblock in memory |
| FileSystem.Sfs.PrintInfo | PA2/fs.c:341-362 | loads the superblock: the file system is mounted |
| FileSystem.Sfs.ReloadFs | PA3/a2/fs.c:1057-1068 | recovers superblock and freemap from the disk with all files; after a completed operation it changes nothing |
| FileSystem.Sfs.FindDirBlock | PA2/fs.c:271-295 | the walk ends and finds the first directory of the name, 0 exactly if there is none |
| FileSystem.Sfs.Mkdir | PA2/fs.c:368-431 | -1 and nothing changed if the name exists; else exactly one directory is appended in the least free block, all images safe, all files unchanged |
| FileSystem.Sfs.AppendLink | PA2/fs.c:388-418 | the new block is linked from the superblock or from the last directory |
| FileSystem.Sfs.LinkLast | PA2/fs.c:396-417 | the walk reaches the directory without a successor and writes just that block |
| FileSystem.Sfs.Rmdir | PA2/fs.c:437-502 | -1 and nothing changed if the name is missing; else just that directory leaves the list, its block is free, the blocks of its files stay marked; of the two images written the first is unsafe, the second safe |
| FileSystem.Sfs.RemoveDirAt | PA2/fs.c:451-499 | free, then unlink, for the first directory of the list and for a later one |
| FileSystem.Sfs.LsDir | PA2/fs.c:507-535 | returns the number of directories in the list |
| FileSystem.Sfs.Ls | PA2/fs.c:742-778 | returns the number of files of the whole tree |
| FileSystem.Sfs.GatherEntries | PA2/fs.c:243-254 | the inner loop gives each unset entry a fresh cleared block, keeps set ones, and lists the entries in order |
| FileSystem.Sfs.FillFromFrame | PA2/fs.c:239-261 | one round of the outer loop fills the entries of one frame and moves to the next |
| FileSystem.Sfs.GetFileContent | PA2/fs.c:208-264 | the ids are, in order, entry k % 127 of frame k / 127 for each k of the range in the chain; missing entries get fresh blocks, existing ones stay; it takes exactly the missing ones |
| FileSystem.Sfs.SkipFrames | PA2/fs.c:224-234 | the walk over start / 127 frames ends at that frame |
| FileSystem.Sfs.AppendFrame | PA2/fs.c:163-186 | one frame more; its 127 entries are distinct blocks, each free before and cleared now; every image safe |
| FileSystem.Sfs.ResizeFile | PA2/fs.c:135-198 | the chain has max(1, ceil(size / 65024)) frames, the old chain is a prefix, the entries of the new frames are distinct blocks, each free before and cleared now, and 128 blocks were taken for each frame |
| FileSystem.Sfs.Reserve | PA2/fs.c:798-822 | before the copy loop of a write the chain and the entries of its range exist, at the exact cost in blocks |
| FileSystem.Sfs.CopyIn | PA2/fs.c:829-866 | the loop ends, writes exactly the buffer's bytes at cur, no other file's, moves cur by its length, and uses Rounds ids |
| FileSystem.Sfs.Write | PA2/fs.c:788-871 | the file becomes the old one overwritten at cur, all others unchanged; the cursor moves by the length; of the old entries only those under the range change; all images safe; exact count of blocks taken |
| FileSystem.Sfs.CopyOut | PA2/fs.c:964-997 | the loop ends, fills exactly the first bytes of the buffer with the file's bytes from cur on, and uses Rounds ids |
| FileSystem.Sfs.Read | PA2/fs.c:880-1001 | gives the bytes cur..cur + length if they lie in the file, cur.. if it ends before, and none behind the end; moves the cursor by as many, changes no file |
| FileSystem.Sfs.Seek | PA2/fs.c:1013-1035 | the cursor goes to its target, or to 0 if that lies before the beginning; no other descriptor changes |
| FileSystem.Sfs.FreeFd | PA2/fs.c:551-570 | the first descriptor that is not in use, -1 exactly if all are |
| FileSystem.Sfs.ScanSlots | PA2/fs.c:578-610 | finds the first slot with a file of the name, or else the first free slot |
| FileSystem.Sfs.CreateInode | PA2/fs.c:615-634 | a fresh block enters a free slot as an empty file's inode, all images safe |
| FileSystem.Sfs.CreateFile | PA2/fs.c:612-647 | the new file has its name, one frame and one content block in three fresh blocks, all images safe, no other file changed |
| FileSystem.Sfs.FillFirst | PA2/fs.c:638-646 | the first entry of the new frame gets a fresh block |
| FileSystem.Sfs.Open | PA2/fs.c:541-653 | -1 exactly if all descriptors are in use, and then nothing is looked at; else the first free descriptor: an existing file is opened without a change to the disk, a missing one is created in the first free slot as an empty file; no other descriptor or file changes |
| FileSystem.Sfs.Close | PA2/fs.c:658-663 | just the valid field of the descriptor becomes 0 |
| FileSystem.Sfs.ClearSlot | PA2/fs.c:680-697 | the file leaves its slot and its blocks become spare; other files keep their bytes |
| FileSystem.Sfs.FreeFrame | PA2/fs.c:710-728 | the set entries of a frame and the frame itself are freed, one safe image after the other |
| FileSystem.Sfs.Remove | PA2/fs.c:669-737 | exactly this file and all its blocks are gone, all other files unchanged; unlink before free: all images safe |
| AbstractFs.WithoutNameIs | PA2/fs.c:433-436 | taking a name out of the list of directories takes out that name, keeps the others, and keeps names unique |
| AbstractFs.RunWellFormed | PA2/fs.c:368-653 | in every run directory names are unique, every file is in an existing directory, every open file exists, and no descriptor is both open and stale |
| AbstractFs.Isolation | PA2/fs.c:669-871 | in every run a file that is neither written nor removed keeps its bytes |
| AbstractFs.FdStays | PA2/fs.c:541-737 | in every run a descriptor that is not used and whose file is not removed keeps its file and cursor |
| AbstractFs.WriteSeekRead | PA2/fs.c:788-1035 | what was written is read back after a seek, with any operations in between that spare the file and the descriptor |
| Session.Shell.constructor | PA2/fs.c:305-362 | a made and mounted file system shows no directories, files or descriptors |
| Session.Shell.Mkdir | PA2/fs.c:368-431 | refines the abstract operation; refused exactly if the name is new and no block is free; else a new name is the last of the list, and a known one leaves it; all images safe |
| Session.Shell.Rmdir | PA2/fs.c:437-502 | refines the abstract operation; refused exactly if the directory holds files; the two images it adds are an unsafe one and then a safe one |
| Session.Shell.Open | PA2/fs.c:541-653 | refines the abstract operation: -1 exactly if all 32 descriptors are in use, else the first free one; refused exactly if one is free and the directory is missing or a new file finds no slot or fewer than three free blocks |
| Session.Shell.Close | PA2/fs.c:658-663 | refines the abstract operation for every descriptor of the table, also of a removed file |
| Session.Shell.Write | PA2/fs.c:788-871 | refines Overwrite at the cursor; refused exactly if the descriptor is not open or fewer blocks are free than the write takes |
| Session.Shell.Read | PA2/fs.c:880-1001 | refines a read at the cursor: the bytes asked for, or those up to the end, or none behind it; refused exactly if the descriptor is not open or fewer blocks are free than its unset entries take |
| Session.Shell.Seek | PA2/fs.c:1013-1035 | the cursor goes to the place counted from 0, from where it is, or from the end, and to 0 if that is before the beginning; refused exactly for a descriptor that is not open |
| Session.Shell.Remove | PA2/fs.c:669-737 | refines the abstract operation; exactly the blocks of the file become free; the file's descriptors stay in use and can only be closed |
| Effects.RemovalFrees | PA2/fs.c:700-728 | taking a file out of a store frees as many blocks as it has: its inode, its frames and its set entries |
| Session.Shell.Perform | PA2/fs.c:368-1035 | every operation refines the abstract one; it is refused exactly if it may not be asked for or the blocks it takes are not free now, and takes just those; only a directory's removal adds an unsafe image |
| Session.Shell.Run | PA2/fs.c:305-1035 | any sequence of operations gives the replies of the abstract file system; between any two operations the marked blocks are exactly the reachable ones and the freemap block; each step is refused exactly for a reason in the request or the free blocks of that moment; all images are safe except the first of the two that a directory's removal adds |
| Session.Shell.CountMissing | PA2/fs.c:246-248 | counts the entries of a range that are in the chain and unset |
| Session.Shell.CountWrite | PA2/fs.c:798-822 | the blocks that a write will take, found out before it |
| Session.Shell.CountRead | PA2/fs.c:964-964 | the blocks that a read will take, found out before it |
| Session.FullDirectory | PA2/fs.c:584-594 | a directory has no free slot exactly if it holds 97 files |
| Laws.MkdirLaw | PA2/fs.c:368-431 | refused exactly if the name is new and no block is free; else 0, the name is the last of the listing and one block is taken, or -1 and nothing changes |
| Laws.RmdirLaw | PA2/fs.c:437-502 | refused exactly if a file is in the directory; else 0, one place less in the listing, the rest in order, one block more free, or -1 and nothing changes |
| Laws.OpenLaw | PA2/fs.c:541-653 | -1 with all 32 descriptors in use; else refused exactly if the directory is missing, or the file is new and 97 files are there or fewer than 3 blocks are free; else the first free descriptor stands at 0 of the file, which is empty if new |
| Laws.CloseLaw | PA2/fs.c:658-663 | refused exactly outside of 0 to 31; else 0, and the descriptor is free |
| Laws.WriteLaw | PA2/fs.c:788-871 | refused exactly if the descriptor is not open or the blocks are not free; else all bytes are laid over the file at the cursor, which moves behind them |
| Laws.ReadLaw | PA2/fs.c:880-1001 | refused exactly if the descriptor is not open or the blocks are not free; else the bytes from the cursor on, up to the length or the end, and the cursor moves by as many |
| Laws.SeekLaw | PA2/fs.c:1013-1035 | refused exactly if the descriptor is not open; else the new cursor is counted from 0, from the old one or from the size, and never negative; nothing else changes |
| Laws.RemoveLaw | PA2/fs.c:669-737 | refused exactly if the descriptor is not open; else just its file is gone, all its descriptors are stale and all others as before |
| Laws.ManyMkdirs | PA2/fs.c:368-431 | n mkdirs of new and different names with n free blocks all succeed, and the listing ends with the n names in order |
| Laws.ReadsJoin | PA2/fs.c:880-1001 | in a run of reads of one descriptor the replies joined are the bytes from the cursor on, up to the sum of the lengths or the end of the file |
| Laws.SeekEndAppends | PA2/fs.c:1013-1035 | a seek to the end and a write append |
| Laws.WriteBackRead | PA2/fs.c:1013-1035 | a write, a seek back by as many bytes from the current place, and a read give the bytes back |
| Laws.BeforeBeginning | PA2/fs.c:1013-1035 | after a seek to before the beginning, counted from anywhere, a read begins at byte 0 |
| Scripts.WriteAll | PA2/fs.c:788-871 | any number of seeks and writes to a file gives the bytes of all writes in turn and changes no other file |
| Scripts.CreateWriteRemove | PA2/fs.c:541-737 | creating a file, writing to it any number of times and removing it restores tree, slots, roles, freemap and all files |
| Scripts.CreateRemove | PA2/fs.c:616-697 | removing a file from the slot it was created in gives back the old tree |
| Scripts.MakeRemoveDir | PA2/fs.c:368-502 | making a directory of a new name and removing it restores listing, freemap and all files |
| Scripts.AppendRemove | PA2/fs.c:388-499 | removing the directory that was appended last gives back the old tree and roles and loses no block |
| BlockStore.BlockNameInjective | PA3/datanode/exta2.c:6-10 | the name of a stored block determines the file and the number |
| BlockStore.BlockNameFormat | PA3/datanode/exta2.c:6-10 | the name is that of the file, _blk_ and the number in decimal digits without leading zeros |
| BlockStore.Store.constructor | PA3/datanode/exta2.c:42-50 | a new store holds no blocks and is ready for the first one |
| BlockStore.Store.OpenBlock | PA3/datanode/exta2.c:33-33 | opens descriptor 0 on the block's file, empty if it is new, and leaves enough free blocks to write or read it |
| BlockStore.Store.WriteBlock | PA3/datanode/exta2.c:24-40 | the store becomes the old map with this key set to the 1024 bytes, for any key that is stored or finds one of the 97 slots |
| BlockStore.Store.ReadBlock | PA3/datanode/exta2.c:12-22 | gives the bytes of the key with the store unchanged, also when the directory is full; an absent key gives no bytes and is then there, empty |
| BlockStore.Store.WriteBlocks | PA3/datanode/exta2.c:24-40 | any number of writes about at most 97 keys in all leave the map with each of them set in turn |
| BlockStore.Store.WriteOthersRead | PA3/datanode/exta2.c:12-40 | a write, any writes to other keys and a read give back the 1024 bytes |
| BlockStore.EnoughFree | PA3/datanode/exta2.c:24-40 | a store of n blocks has at least 4093 - 5 n free blocks |
| BlockStore.KeysCount | PA3/datanode/exta2.c:24-40 | the directory holds as many files as there are blocks |
| DataNode.Service.CreateBlock | PA3/datanode/dfs_datanode.c:120-124 | the content is stored under the packet's file name and block id, all else as before |
| DataNode.Service.ReadBlock | PA3/datanode/dfs_datanode.c:99-117 | answers with the stored block; for a block it has not got with 1024 zeros, and then keeps an empty one; no other block changes |
| DataNode.Service.RequestsDispatcher | PA3/datanode/dfs_datanode.c:126-137 | a write sets the block of the packet and no other; a read is answered with the stored block, or with zeros if there is none |
| DataNode.Service.ServeAll | PA3/datanode/dfs_datanode.c:22-39 | a series of packets leaves the blocks that handling them in turn leaves, and each read is answered from the blocks of its moment |
| DataNode.FewBlocks | PA3/datanode/dfs_datanode.c:22-39 | a new datanode can serve all packets that begin with a write and are about at most 97 blocks |
| Composition.Replay | PA3/datanode/dfs_datanode.c:13-42 | a new datanode that is sent what one receives in a run stores what the run has it store and answers each read as in the run |
| RoundRobin.NextFilled | PA3/namenode/dfs_namenode.c:209-215 | from behind one registered slot the cyclic search stops at the next one, behind the last at the first |
| RoundRobin.TurnAt | PA3/namenode/dfs_namenode.c:209-234 | taking turns from position j on, the i-th turn is at position (j + i) mod k |
| RoundRobin.NewFileTurns | PA3/namenode/dfs_namenode.c:205-234 | block i of a new file goes to registered slot number i mod k |
| RoundRobin.Balanced | PA3/namenode/dfs_namenode.c:205-234 | each of k datanodes gets floor or ceil of n / k of the n blocks |
| RoundRobin.AssignInParts | PA3/namenode/dfs_namenode.c:314-348 | assigning m blocks and then n more from behind the last is assigning m + n |
| NameNode.NextIsFilled | PA3/namenode/dfs_namenode.c:212-215 | with some datanode registered the cyclic search ends at a registered one |
| NameNode.PushedOk | PA3/namenode/dfs_namenode.c:202-234 | after a push, first or repeated, every block below blocknum has its id, its owner and a registered datanode, and old entries stay |
| NameNode.ExtendedOk | PA3/namenode/dfs_namenode.c:305-350 | the same after an extension, which keeps all entries and reaches the required number |
| NameNode.ExtendingIsPushing | PA3/namenode/dfs_namenode.c:289-325 | a push and any number of extensions leave the image of one push at the greatest size, but for the file size, which stays that of the push |
| NameNode.NewFilePlacement | PA3/namenode/dfs_namenode.c:200-234 | the descriptor of block i of a new file names registered datanode number i mod k, its address and port |
| NameNode.EnterImage | PA3/namenode/dfs_namenode.c:169-198 | entering or replacing an image keeps the table in order and names unique, and is seen under no other name |
| NameNode.RegisterKeepsTable | PA3/namenode/dfs_namenode.c:116-145 | a registration makes no image of the table wrong |
| NameNode.ServeKeeps | PA3/namenode/dfs_namenode.c:365-385 | every request keeps the table in order, changes no other file's image, and is answered with the image it leaves |
| NameNode.PlaceForIs | PA3/namenode/dfs_namenode.c:164-195 | an image goes where that of its name is, and a new one in the first empty place |
| NameNode.ServeRead | PA3/namenode/dfs_namenode.c:247-272 | a read request is answered with an image if and only if that is the image of its name in the table, gets no answer if and only if there is none, and changes nothing |
| NameNode.ServeQuery | PA3/namenode/dfs_namenode.c:275-289 | a query is answered with the number of slots that have a datanode, and changes nothing |
| NameNode.ServeWrite | PA3/namenode/dfs_namenode.c:162-244 | no answer if and only if the name is new and no place is empty; else the image keeps its blocks, counts those of the new size, and has a new entry for each, in turn from the first filled slot on |
| NameNode.ServeModify | PA3/namenode/dfs_namenode.c:291-363 | no answer if and only if the name is missing; else the image keeps its size and its blocks and gets those it lacks, each on the next filled slot behind that of the block before it |
| NameNode.ServeAnswers | PA3/namenode/dfs_namenode.c:365-385 | for each kind of request the exact condition of getting no answer |
| NameNode.FitsIs | PA3/namenode/dfs_namenode.c:198-204 | a request fits exactly if old blocks and new bytes make up no more than 100 blocks |
| NameNode.Server.constructor | PA3/namenode/dfs_namenode.c:5-9 | empty tables, no datanode, safe mode |
| NameNode.Server.RegisterDatanode | PA3/namenode/dfs_namenode.c:105-152 | fills slot id - 1 for ids below 10, counts new datanodes, ends safe mode; other ids change nothing |
| NameNode.Server.FindImage | PA3/namenode/dfs_namenode.c:167-177 | finds the first image of the name, or the end of the table |
| NameNode.Server.FindDatanode | PA3/namenode/dfs_namenode.c:210-215 | the inner loop ends at the slot the cyclic search defines, which is registered |
| NameNode.Server.AssignBlocks | PA3/namenode/dfs_namenode.c:207-234 | the assignment loop writes exactly the entries first .. first + n - 1, in turn |
| NameNode.Server.EnterFile | PA3/namenode/dfs_namenode.c:166-198 | the old image, or a new one in the first empty place, or none if the table is full |
| NameNode.Server.GetFileReceivers | PA3/namenode/dfs_namenode.c:162-244 | table and answer are those of Serve, no answer if the table is full; the table stays in order |
| NameNode.Server.GetFileLocation | PA3/namenode/dfs_namenode.c:247-272 | answers with the one image of the name, or not at all |
| NameNode.Server.GetFileUpdatePoint | PA3/namenode/dfs_namenode.c:291-363 | table and answer are those of Serve for an extension |
| NameNode.Server.RequestsDispatcher | PA3/namenode/dfs_namenode.c:365-385 | out of safe mode every request has the effect and answer of Serve; a read is answered with the image of its name, a query with the number of filled slots, and there is no answer exactly for a missing name, or for a new name with the table full |
| NameNodeSteps.RunInv | PA3/namenode/dfs_namenode.c:81-363 | in every interleaving of the two threads names are unique, finished images whole, dncnt exact but for one step, and service implies a registered datanode |
| NameNodeSteps.SafeModeEnds | PA3/namenode/dfs_namenode.c:15-19 | in every run safeMode is 0 if and only if some earlier step has set the address of a datanode |
| NameNodeSteps.CanPush | PA3/namenode/dfs_namenode.c:162-209 | a push can begin if and only if safe mode is over, no request is served, the file has or gets a place and its blocks fit |
| NameNodeSteps.CanExtend | PA3/namenode/dfs_namenode.c:291-350 | an extension can begin if and only if safe mode is over, no request is served, the table holds the file with fewer blocks than the size takes, and that is no more than 100 |
| NameNodeSteps.CanFinish | PA3/namenode/dfs_namenode.c:209-244 | from any request under way there are steps of the service thread alone that finish it and leave the planned table |
| NameNodeSteps.PushIsServed | PA3/namenode/dfs_namenode.c:15-38 | every run that has left safe mode and rests can go on with any push that fits, to its end, and leaves the table that Serve gives |
| NameNodeSteps.RegistrationGoesOn | PA3/namenode/dfs_namenode.c:81-157 | the registration thread always has a next step, and can accept any datanode when it waits |
| NameNodeSteps.Registers | PA3/namenode/dfs_namenode.c:105-147 | at the end of a registration the slot of the datanode last accepted has its id, address and port, no other slot changes, and safe mode is over |
| NameNodeSteps.FirstRegistration | PA3/namenode/dfs_namenode.c:81-157 | a run from the start in which any datanode of an id from 1 to 9 registers |
| NameNodeSteps.FirstPush | PA3/namenode/dfs_namenode.c:15-244 | a run from the start in which a datanode registers, and a push begins, assigns its blocks and finishes: each block is on that datanode, at its address |
| NameNodeSteps.RestingTable | PA3/namenode/dfs_namenode.c:116-123 | between requests the table is in order, and dncnt is the number of filled slots outside the window between count and slot |
| NameNodeSteps.SlotsStay | PA3/namenode/dfs_namenode.c:105-147 | registered slots never disappear in a run |
| NameNodeSteps.WorkShrinks | PA3/namenode/dfs_namenode.c:209-234 | each step of a request brings it nearer to its end, and no registration puts it off |
| NameNodeSteps.NeverStuck | PA3/namenode/dfs_namenode.c:209-234 | a request under way can always take a step |
| NameNodeSteps.RequestEnds | PA3/namenode/dfs_namenode.c:209-234 | in every run a request takes no more steps than it had left at its beginning |
| NameNodeSteps.ServedAtOnce | PA3/namenode/dfs_namenode.c:162-363 | a request during which no slot changes leaves the table that Serve gives in one step |
| NameNodeSteps.RunAddressed | PA3/namenode/dfs_namenode.c:127-145 | if each datanode registers under its own address, every filled slot holds it, or is being registered and its ip is still empty |
| NameNodeSteps.AssignedAddress | PA3/namenode/dfs_namenode.c:225-230 | in every run a block gets its datanode's address if and only if the ip of the slot is set |
| NameNodeSteps.BlankAddress | PA3/namenode/dfs_namenode.c:122-145 | a block assigned right after its datanode's slot is filled for the first time has a blank address |
| Wire.PieceAt | PA3/client/dfs_client.c:141-150 | a block is the 1024 bytes from a position on, zeros behind the end |
| Wire.Padded | PA3/client/dfs_client.c:236-242 | a file in whole blocks: the file, then zeros, and the file itself if its size is a multiple of 1024 |
| Client.LocalFile.ReadPiece | PA3/client/dfs_client.c:149-150 | reads the block at the position and moves the position on |
| Client.PushFile | PA3/client/dfs_client.c:138-165 | piece i of the file is sent for entry i of the image, for each block |
| Client.ModifyFile | PA3/client/dfs_client.c:57-96 | the pieces from the start address on are sent for the blocks from that of the start to that of the end |
| Client.PullFile | PA3/client/dfs_client.c:194-242 | the file is the answers to the reads of its blocks, one behind the other |
| Client.JoinPieces | PA3/client/dfs_client.c:236-242 | the pieces of a file, joined, are the file |
| Client.ModifiedPiece | PA3/client/dfs_client.c:57-96 | the blocks of a modified file are the sent pieces inside the range and the old blocks outside |
| Client.ModifyingIsPushing | PA3/test.c:248-288 | a modification that begins at a block and covers all changes and all new blocks makes the file as a push of the new contents would |
| Protocol.RegisterRefines | PA3/namenode/dfs_namenode.c:105-152 | a registration changes no file |
| Protocol.PushRefines | PA3/client/dfs_client.c:104-169 | a push when no block of the file is on its way makes the file the pushed bytes; any push leaves every other file |
| Protocol.ModifyRefines | PA3/client/dfs_client.c:30-101 | a modification when no block of the file is on its way lays its bytes over the file; any modification leaves every other file |
| Protocol.DeliverRefines | PA3/datanode/dfs_datanode.c:120-124 | delivering any block on its way changes no file |
| Protocol.FetchRefines | PA3/datanode/dfs_datanode.c:99-117 | reading a block changes no file |
| Protocol.RunHeld | PA3/client/dfs_client.c:30-245 | in every run a file that is itself written in order is what the abstract map says, however other files are written |
| Protocol.RunRefines | PA3/client/dfs_client.c:30-245 | a run that writes every file in order refines a map from names to byte sequences |
| Protocol.HeldAnswer | PA3/datanode/dfs_datanode.c:99-117 | a datanode answers a read of a block that has arrived with the bytes of the abstract file |
| Protocol.Unwritten | PA3/client/dfs_client.c:30-169 | while a file is not written, steps of all kinds leave its image, its bytes and its having arrived |
| Protocol.HeldLasts | PA3/client/dfs_client.c:30-169 | while a file is not written, the system goes on holding its bytes, stored or on their way |
| Protocol.PullRefines | PA3/client/dfs_client.c:172-245 | a pull begins with the answer to a read request, which is none exactly if the abstract file does not exist; its reads, at any times, give the abstract file, if this file was written in order |
| Protocol.PullAnswerIs | PA3/namenode/dfs_namenode.c:247-272 | what the name node answers a pull is the image the table holds for the name |
| Protocol.RoundTrip | PA3/client/dfs_client.c:104-245 | once its blocks have arrived, the name node answers a pull with an image of the pushed number of blocks, and the pull gives the pushed bytes filled up to whole blocks, whatever registrations, reads, deliveries and writes of other files come between, in any order; of this file no block is on its way at the push, and it is not written again before the pull |
| Protocol.CanDeliver | PA3/client/dfs_client.c:152-162 | in every run any block on its way can be delivered, and there is then one less |
| Protocol.StoreIsServed | PA3/datanode/dfs_datanode.c:22-39 | in every run a datanode stores what serving its packets in turn leaves |
| Protocol.OrderMatters | PA3/datanode/dfs_datanode.c:120-124 | of two writes of one block on their way the one delivered last stays |
| Protocol.Overtaken | PA3/client/dfs_client.c:104-169 | a run from the start in which a second push overtakes the first one: all blocks have arrived, and a read gives the first push's bytes |
| RoundTrips.ModifyRoundTrip | PA3/test.c:248-288 | a file pushed, then modified at a block boundary over all that differs and all it adds: once both have arrived a pull gives the new contents filled up to whole blocks |
| RoundTrips.CanPush | PA3/client/dfs_client.c:104-169 | a client can push a file if and only if a datanode is registered and its blocks fit on top of those the file has |
| RoundTrips.PushSends | PA3/client/dfs_client.c:140-165 | a push sends a packet for each 1024 bytes begun, unless the file is new and the table is full; it stores nothing itself |
| RoundTrips.CanModify | PA3/client/dfs_client.c:30-101 | a client can modify a range if and only if a datanode is registered, the size fits and the range ends in a block that the file has or gets |
| RoundTrips.CanArrive | PA3/client/dfs_client.c:152-162 | from any point of any run all packets on their way can be delivered, one after the other |
| RoundTrips.Journey | PA3/client/dfs_client.c:104-245 | from any point of a run at which nothing of a file is on its way and it fits, it can be pushed, its blocks can arrive, and a pull then gives it back |
| RoundTrips.FirstJourney | PA3/client/dfs_client.c:104-245 | on a new system a datanode registers, a file of up to 100 blocks is pushed, its blocks arrive on that datanode, and a pull gives it back |
| Deviations.StrncpyExact | PA2/fs.c:846-857 | strncpy copies the bytes exactly if none but zeros follow a zero |
| Deviations.StrcpyExact | PA3/client/dfs_client.c:228-228 | strcpy copies a block if and only if it has a zero byte and the target already agrees with it behind the first one; without a zero byte it leaves both blocks |
| Deviations.StrcpyToCleared | PA3/datanode/dfs_datanode.c:108-113 | into a cleared target it copies just the blocks that end in a zero and have only zeros behind the first |
| Deviations.WriteInOneBlock | PA2/fs.c:829-866 | inside one block the write loop as written writes just the buffers in which only zeros follow a zero |
| Deviations.WriteExactly | PA2/fs.c:829-866 | the write loop as written writes a buffer right if and only if each chunk of it is what strncpy makes of its first bytes |
| Deviations.WriteExact | PA2/fs.c:829-866 | it writes all buffers without zeros of a length if and only if the range stays in one block |
| Deviations.ReadExactly | PA2/fs.c:964-997 | the read loop as written reads contents right if and only if the byte laid last over each byte of the buffer is the right one, and the buffer is right already where none is laid |
| Deviations.LastOverIs | PA2/fs.c:964-997 | which byte that is: the last one as far from the beginning of its chunk |
| Deviations.ReadExact | PA2/fs.c:964-997 | it reads all contents without zeros of a length if and only if the range stays in one block |
| Deviations.IdArrayLongEnough | PA2/fs.c:801-802 | the id array suffices if and only if cur % 512 + length % 512 < 512 |
| Deviations.LastIdInChain | PA2/fs.c:226-231 | the last id asked for is in the chain if and only if the range ends before the chain does |
| Deviations.WalkFromStart | PA2/fs.c:234-262 | begun in frame start / 127, the nested loops give the content blocks from number start on, in order |
| Deviations.FirstFrameOnly | PA2/fs.c:224-246 | the nested loops as written give the right ids if and only if the first of them is in the first frame |
| Deviations.FirstFrameFilled | PA2/fs.c:224-256 | the same with unset entries, which the loops fill in the first frame |
| Deviations.ResizeKeepsFrames | PA2/fs.c:154-186 | the resize as written keeps all frames if and only if there was one frame or none is added |
| Deviations.SecondSlot | PA2/fs.c:685-697 | clearing the second slot stays in the array and clears only the file's own if and only if it is in the array and empty or the file's own |
| Deviations.RmdirExact | PA2/fs.c:451-499 | removing a directory keeps the freemap exact if and only if the directory was empty |
| Deviations.ReadEnds | PA2/fs.c:896-942 | sfs_read as written ends if and only if, of the entries its count asks for, those in the chain are set and at most three lie behind it, where block 0 is taken for a frame; or the cursor is behind the only frame and the range in one frame's length |
| Deviations.ReadTruncates | PA2/fs.c:896-1000 | it returns the number of bytes up to the end of the file if and only if it ends and the range is empty or lies inside the file |
| Deviations.ReadCopies | PA2/fs.c:945-957 | it copies as many bytes as it returns, and no more than the buffer holds, if and only if it does not stop behind the only frame, or the rests of cursor and length make up a block, or at least a block |
| Deviations.WholeFramesRead | PA2/fs.c:896-1000 | reading all of a file of whole, set frames ends and returns its size |
| Deviations.SuperInUse | PA2/fs.h:18-25 | where there is a file, the three words of block 0 behind the magic number are not zero |
| Deviations.NewFileRead | PA2/fs.c:896-1000 | of a new file, reading 512 bytes or more never ends, and reading fewer, say 100, returns as many although there are none |
| Deviations.ScanExact | PA2/fs.c:63-101 | the scan of 512 words stays in the freemap block if and only if some block is free |
| Deviations.FirstDirectory | PA2/fs.c:368-431 | the first directory made in an empty file system is in it if and only if the superblock was loaded before |
| Deviations.EofExact | PA2/fs.c:1039-1050 | sfs_eof tells whether nothing is left to read if and only if the cursor is not just at the end |
| Deviations.ReadingNeverEnds | PA2/fs.c:1039-1050 | reading from inside a file never makes sfs_eof answer yes |
| DfsDeviations.OneSlot | PA3/namenode/dfs_namenode.c:325-348 | the loop as written puts all blocks on one datanode |
| DfsDeviations.UpdateCounts | PA3/namenode/dfs_namenode.c:308-350 | the update as written counts right if and only if no block is added |
| DfsDeviations.UpdatePlacement | PA3/namenode/dfs_namenode.c:316-348 | it places the blocks as one push if and only if one datanode is registered, or one block is added and it is the first one's turn |
| DfsDeviations.UpdatePlacementAny | PA3/namenode/dfs_namenode.c:316-348 | for any image, also with old entries behind the last block: it places the blocks as an extension if and only if its search finds the slot whose turn it is, and one block is added or one datanode registered |
| DfsDeviations.PushTwice | PA3/namenode/dfs_namenode.c:202-204 | a second push of the same size fits in the block list if and only if twice its blocks do |
| DfsDeviations.ModifiesOneBlock | PA3/client/dfs_client.c:70-96 | the modification as written sends the right packets if and only if there is one |
| DfsDeviations.ModifiesInPlace | PA3/client/dfs_client.c:57-68 | the bytes of a modification land at their addresses if and only if it begins at a block |

## Left out

- FileSystem.Sfs.Open: when a descriptor is free, asks that the directory exists, that a new file finds a free slot and that three blocks are free; the code then takes block 0 for a directory (574-576), slot -1 (619) or block 0 as the file's, which the model does not follow. `Session.Shell.Open` finds this out before the call.
- FileSystem.Sfs.Mkdir: asks for a free block if the name is new, because the code does not look whether it got one (386).
- FileSystem.Sfs.ResizeFile: asks for enough free blocks, because the code does not look whether it got them (170, 181).
- FileSystem.Sfs.GetFileContent: asks for enough free blocks (247), and ends at the end of the chain.
- FileSystem.Sfs.Write: asks for exactly the free blocks it takes, and for a descriptor that names a file; the code checks neither.
- FileSystem.Sfs.Read: asks for the free blocks that unset entries in its range take, because reading allocates them (246-248).
- FileSystem.Sfs.Remove: asks for a descriptor that names a file in its directory; the code does not check it, and the descriptor stays usable afterwards.
- Allocator.FindFreeBit: scans the 128 words of the freemap block, not the 512 of line 63; with one freemap block the outer loop runs once or, unmounted, not at all.
- BlockStore.Store.constructor: makes and mounts the file system; ext_init_local_fs only makes it, its superblock in memory stays cleared until the first sfs_print_info (exta2.c:37), and by then the first ext_write_block has had 0 for every block it allocated and has written a cleared superblock and then the directory over block 0 (PA2/fs.c:393-395, 428). `FirstDirectory` says that the directory is in the file system exactly if it was mounted before.
- BlockStore.Store.WriteBlock: asks that the key is stored or one of the 97 slots of the directory is left; beyond that the code takes slot -1 (PA2/fs.c:619). The buffer for the block's name, too short for numbers from 10 on (exta2.c:15), is a string without a bound.
- BlockStore.Store.ReadBlock: asks the same, and that some block was written before, because only writing makes the directory.
- DataNode.Service.ServeAll: asks the same of each packet.
- NameNode.Server.GetFileReceivers: asks that old and new entries fit in the 100 entries of the block list; the code writes beyond it.
- NameNode.Server.GetFileUpdatePoint: asks for no more than 100 blocks.
- NameNode.Server.RegisterDatanode: asks for an id of at least 1, as the comment at 109 says.
- Client.PullFile: the datanodes' answers are a function from block to content; `Protocol` says what they are at which time.
- Protocol.RunHeld: asks that this file is written only when its last write has arrived, and that a modification of it sends all blocks it adds; without the first the order of delivery decides (`Overtaken`). Packets go to the datanode by id; `NameNodeSteps` says when a descriptor's address is that datanode's.
- RoundTrips.ModifyRoundTrip: asks that the modification begins at a block; the code puts its bytes elsewhere otherwise (`ModifiesInPlace`).
- Protocol.ModifyRefines: the range of a modification lies in the blocks the file then has; the code sends blocks beyond them to blank addresses.
- Blocks are typed values, not 512 bytes read through casts: a cleared block reads as an empty directory, inode or frame, and a data block is never taken for anything else.
- Names are strings without a bound; the lengths of 120, 504 and 256 bytes and `strcpy` beyond them are not modelled. Line 371 takes the size of an address for the length of the name and never refuses one.
- Numbers are unbounded; the wrap-around of u32 sizes and cursors is not modelled. Negative lengths of reads and writes and negative sizes of files are not modelled.
- The storage is an array of 4096 blocks, one for each bit of the freemap; `nblocks` (1024) limits nothing in the code, and there is a single freemap block.
- sfs_eof is not an operation of the model; what it answers is stated in `Deviations`.
- Sockets, partial sends, connection failures and the timing of heartbeats: messages are whole and reliable, and stay on their way until delivered. Zeros at the end of the last block are a choice of the model; in the code that part of the block is not set.
- Dispatching on request types that do not exist, printing, system information beyond the number of datanodes, and the datanode's other block store (`PA3/datanode/ext.c`).
- `PA1` and the cached disk of `PA2/a1`: the cache is a stub, so the code decides no property of it.
