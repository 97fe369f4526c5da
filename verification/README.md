# TG11-OS kernel: verified models

Dafny models of eight parts of the TG11-OS kernel, each proved against a simple meaning: a map from names to bytes, a
partial map of addresses, a tree, a ring, a queue, a stream, the value of an expression. Code that changes state in
place is modelled by classes and methods that change state in place, and their contracts tie the new state to functions
of the old one; lemmas then prove what those functions promise. `dafny verify dfyconfig.toml` checks everything.

| part | modules | source | meaning |
|---|---|---|---|
| FAT32 driver | `BlockDevices` (in `Fat32Device.dfy`), `Fat32*` | `kernel/fat32.c` | the FAT as disjoint acyclic chains, directories as lists of slots, and a map from names to bytes |
| physical memory, page tables, virtual window | `Bitmaps`, `PhysMemory`, `PageEntries`, `PageTables`, `PageAccess`, `Paging`, `PageLists`, `VirtRanges` | `kernel/memory.c` | a set of free frames, a partial map from pages to frames, and what each page may be used for |
| RAM filesystem | `RamTree`, `RamPaths`, `RamFs`, `RamWalks` | `kernel/fs.c` | a rooted tree with distinct sibling names |
| ELF loader | `ElfImage`, `ElfPages`, `ElfLoad` | `kernel/elf.c` | what a byte at an address of a segment reads as |
| scheduler and user heap | `TaskRing`, `TaskLaws`, `TaskRuns`, `TaskMeaning`, `TaskScheduler`, `UserHeap` | `kernel/task.c` | a ring of tasks as a state machine; a list of frames behind consecutive pages |
| pipes and descriptors | `PipeRings`, `Descriptors`, `PipeTraffic`, `PipeMeaning` | `kernel/syscall.c` | bounded queues, and one holder for each open end |
| checksums and TCP receive | `NetChecksum`, `TcpStream`, `TcpReceiver`, `TcpLife` | `kernel/net.c` | one's-complement sums (RFC 1071); a prefix of the sender's stream (RFC 9293, section 3.10.7.4) |
| BASIC expressions | `BasicText`, `BasicMeaning`, `BasicFuel`, `BasicEnds`, `BasicInterp`, `BasicTrees`, `BasicTreeReads` | `kernel/basic.c` | the value of an expression tree for given variables |

`Options`, `MachineBytes` and `Products` hold what several parts share.

## How the models are built

**FAT32.** `BlockDevice` is an array of 512-byte sectors whose requests may fail; a count `faults`, at which the driver
never looks, goes up with every failed request, so "without a fault" means that it is the same afterwards. A call that
fails without a fault is a refusal, and the contracts say what it leaves: the volume as it was, or what else and why.
`Fat32` holds the geometry, both caches, the batch size and the allocation hint as the driver's global state does. Its
ghost fields `links` and `clusters` are the abstract volume, and `Valid()` ties them to the sectors on the device;
`agree` says that all FAT copies hold the same links, and `lowest` that no cluster below the hint is free. `View` adds
the chains and the directories as lists of slots. The layout follows Microsoft's FAT32 File System Specification 1.03,
"FAT Data Structure" and "FAT Directory Structure". A well-formed volume (`Sound`) is what mounting does not check:
every link is 0, 1, a cluster or an end mark, chains are disjoint, entries own their chains, nothing lives behind the
first unused slot. `Fat32Format` says which bytes of the disk all this is, and `Fat32Names` which names are one name.

**Paging.** Tables live in the frames of physical memory (`Mmu.frames`), reached by frame number as the kernel reaches
them through its identity map. An entry is a record; `PageEntries` relates it to the 64-bit word of section 4.5 of the
Intel SDM, volume 3A. `TreeOk` says that tables are unshared and in use, and that no entry maps 1 GiB. `Translate` is
the meaning of the tree, and `PageAccess.Lets` says which flags all entries on the way to a page have. The ELF loader
and the user heap are built on the same `Mmu`.

**Scheduler.** `TaskLaws` gives each call and each switch as a function on a state (`After`); `TaskScheduler` is the
array with its links, changed in place, and every method's new state is `After` of the old one. The invariant is proved
over `After`, and runs are sequences of calls; `TaskMeaning` says of each call, slot by slot, what it does.

**BASIC.** `BasicMeaning` evaluates an expression from its text for a fixed environment, with fuel that bounds the depth
of evaluation; `BasicTrees` says what an expression tree means and how it is written, and `BasicTreeReads` that
evaluating what was written gives that; `BasicFuel` proves that the fuel cannot be seen in an answer, and `BasicEnds`
when some fuel is enough and when none is. `BasicInterp` is the evaluator with its variable array, in which a call of
`FNx` overwrites the parameter and puts it back.

## Main results

- FAT32: `Fat32Runs.RunCalls` (any list of calls, refused ones included, refines a map from names to bytes),
  `Fat32Api.WriteThenRead`, `Fat32Api.WriteFilePath` (success, refusal, running out, and the exact change of the free
  count), `Fat32Names.StoredAlike` and `Fat32Names.WriteLeaves` (which names are one), `Fat32Chains.AllocCluster`
  (lowest free cluster), `Fat32Volume.Fat32.ReadDataSectors` (the batched, cached read is the disk),
  `Fat32Lost.LostIsUnsound`.
- Paging: `Paging.Mmu.MapPage` (one page more, usable exactly as asked, and nothing lost), `PageTables.SplitTranslate`,
  `VirtRanges.AllocThenFree`.
- RAM filesystem: `RamFs.RamFs.Mv` (no cycle; the tree is kept exactly when the new parent is in use),
  `RamFs.PwdResolves`, `RamWalks.DotsLead`.
- ELF: `ElfLoad.Loader.Load` (exactly the image, byte by byte and usable as its segments say, or everything taken back).
- Scheduler: `TaskRuns.RunKeeps`, `TaskRuns.RunsInTurn`, `TaskMeaning.StoppedRests`, `TaskLaws.CallKeeps`; heap:
  `UserHeap.Heap.HeapMaps`, `UserHeap.Heap.BreakMapped`.
- Pipes: `PipeTraffic.MakeCalls` (bytes in, bytes out, over runs of descriptor calls), on `PipeRings.Pipe.Read` and
  `PipeRings.Pipe.Write`; `Descriptors.FdTable.MakePipeFor`, `Descriptors.ClosedKeeps` and `Descriptors.MadeKeeps` (one
  holder for each open end).
- Net: `TcpLife.PrefixFromSyn`, `TcpStream.PrefixOfStream`, `TcpLife.StateTells`, `NetChecksum.StoredVerifies`,
  `NetChecksum.SwappedIsChecksum`.
- BASIC: `BasicInterp.Interpreter.ParseExpr`, `BasicTreeReads.WrittenReads`, `BasicFuel.OneMeaning`,
  `BasicEnds.EvaluationEnds`.

## Where the code does not do what one would expect

Each is kept as the code has it, with a lemma that shows it or the exact condition.

- A FAT32 write that runs out of clusters has already freed the old chain, and the entry still names it. It does so
  exactly when `TooLarge` holds (`Fat32Api.WriteFilePath`, `Fat32Api.WrittenWasWritable`). If the file had contents, the
  disk can then be read as a sound tree in no way (`Fat32Lost.LostIsUnsound`); if it had none, it still is one
  (`Fat32Lost.LostWithoutContents`).
- A FAT32 name that begins with byte 0xE5 is stored as a deleted entry: touch succeeds and the name stays unfindable
  (`Fat32Tree.DeadTree`).
- A move in the RAM filesystem that succeeds keeps the tree if and only if the new parent is in use, which the code does
  not ask (`RamFs.RamFs.Mv`); `RamFs.BreakByMove` is a run that breaks it.
- A reservation whose end lies in the last page of the address space reserves nothing (`PhysMemory.ReservedPages`).
- Freeing pages of the virtual window gives back whatever frame a page leads to. Page tables that lay in frames in use
  still do if and only if no frame given back holds one (`VirtRanges.VirtualWindow.FreePages`, `VirtRanges.TreeOkIs`),
  which is so for what was allocated (`VirtRanges.AllocatedFreeable`); `VirtRanges.BreakByFreeing` is a run that frees
  the root table. A page that lies in a 2 MiB page, or is mapped to frame 0, stays mapped (`VirtRanges.StillMapped`).
- Splitting a 2 MiB page takes user access and the ban on execution away from its 512 pages (`Paging.SplitFlags`).
- A page of a loaded segment in which no byte of the file lies can be written and executed whatever the segment says
  (`ElfLoad.Loader.Load`, `Permitted`).
- After 2^32 - 2 tasks the id counter hands out 0, and the ring breaks one task later (`TaskLaws.CallKeeps`,
  `TaskRuns.RunKeeps`, `TaskRuns.RingBreaks`).
- Killing a task that the timer has switched away from holds the timer off for good (`TaskLaws.LostByKill`,
  `TaskRuns.TimerIsLost`, `TaskRuns.LostForever`).
- An in-order TCP segment that does not fit the receive buffer is acknowledged whole and its excess dropped
  (`TcpStream.FitsExactly`, `TcpStream.DroppedByte`); a FIN is believed whatever its sequence number
  (`TcpStream.FinCompletes`); one that carries data is not acknowledged (`TcpLife.FinAcknowledged`). A connection opens
  on whatever number the other side acknowledges (`TcpLife.HandshakeIs`), and closes at the end on any acknowledgement
  (`TcpLife.LastEnds`).
- Evaluating a BASIC expression need not end. It does if the user functions can be ranked so that each body mentions
  lower ones only, which can be seen in the program text (`BasicEnds.EvaluationEnds`). It does not for functions whose
  bodies begin with calls of one another on arguments that are never refused (`BasicEnds.NeverEnds`), such as arguments
  made of numbers, plain variables, `+ - *` and brackets, which can be seen in the text too (`BasicEnds.CircularTexts`,
  `BasicEnds.CallsItselfForever`). `FNA(1/0)` as the body of `FNA` is refused instead (`BasicEnds.RefusedFirst`). For
  others, such as a body `1/0+FNA(X)`, which is refused before it comes to its call, it depends on the values met on the
  way.

## Model

| member | source | states |
|---|---|---|
| BlockDevices.BlockDevice.WriteSector | kernel/fat32.c:158-165 | a failed sector write changes nothing on the disk |
| BlockDevices.CacheStore | kernel/fat32.c:68-93 | filling the first invalid or else the oldest slot keeps every valid entry equal to the disk sector at its address and holds no address twice |
| BlockDevices.CacheLookup | kernel/fat32.c:95-109 | a hit yields the disk sector; a miss means that the address is not cached |
| Fat32Volume.Fat32.ReadSectorCached | kernel/fat32.c:111-136 | a read through the cache returns the sector that is on the disk, whatever the caches hold and whether or not they are switched on, and keeps both caches coherent |
| Fat32Volume.Fat32.ReadDataSectors | kernel/fat32.c:138-156 | the batched read returns the same sectors as reading one by one through the cache |
| Fat32Volume.Fat32.WriteSectorUncached | kernel/fat32.c:158-165 | a write changes one disk sector and empties both caches; a failed one leaves disk and caches as they were |
| Fat32Volume.Fat32.SetDataCacheEnabled | kernel/fat32.c:713-717 | switching the data cache changes nothing that can be read |
| Fat32Volume.Fat32.SetFatCacheEnabled | kernel/fat32.c:719-723 | switching the FAT cache changes nothing that can be read |
| Fat32Volume.Fat32.SetIoBatchSectors | kernel/fat32.c:701-706 | setting the batch size changes nothing that can be read |
| Fat32Layout.FatLbaInjective | kernel/fat32.c:273-294 | entries of the FAT copies have sectors of their own |
| Fat32Layout.DataLbaInjective | kernel/fat32.c:260-263 | different sectors of clusters lie at different addresses |
| Fat32Layout.PatchEntryValue | kernel/fat32.c:296-323 | storing a FAT entry sets its low 28 bits, keeps the reserved top four and touches no other entry of the sector |
| Fat32Format.EntryBytes | kernel/fat32.c:273-294 | a FAT entry is the low 28 bits of its four bytes |
| Fat32Volume.FatUpdateStep | kernel/fat32.c:296-323 | patching one entry in one FAT copy changes that link in that copy alone, and no data |
| Fat32Volume.FatUpdateEffect | kernel/fat32.c:296-323 | patching every copy in turn leaves all copies agreeing on the new link and every other link as it was |
| Fat32Volume.DataWriteEffect | kernel/fat32.c:158-165 | writing a data sector changes one sector of one cluster and no link |
| Fat32Volume.Fat32.NextCluster | kernel/fat32.c:273-294 | without a device fault the link of a valid cluster is read exactly, and links that are no cluster, end mark or zero are refused |
| Fat32Volume.Fat32.StoreLink | kernel/fat32.c:296-323 | writes one link into the FAT copies; a device fault leaves the first copy before or after the change and no other link touched |
| Fat32Volume.Fat32.SetClusterValue | kernel/fat32.c:296-323 | success sets one link in every FAT copy, so that copies which agreed still agree |
| Fat32Volume.Fat32.ReadClusterRun | kernel/fat32.c:138-156 | reads the given sectors of a cluster, in one request or one by one |
| Fat32Chains.Freed | kernel/fat32.c:464-480 | the links after following and zeroing from a cluster, on any contents at all: each step but the last clears a non-zero link, so it ends |
| Fat32Chains.FreedChain | kernel/fat32.c:464-480 | on an acyclic chain, freeing from the head clears exactly the clusters of the chain |
| Fat32Chains.ClearedCount | kernel/fat32.c:464-480 | freeing a chain raises the number of free clusters by its length |
| Fat32Chains.FreeChain | kernel/fat32.c:464-480 | terminates on any link contents, cyclic ones included; without a fault the links are as `Freed` says and no cluster below the hint is free afterwards |
| Fat32Chains.TakeCluster | kernel/fat32.c:482-538 | takes a cluster: end mark in every copy and every sector cleared |
| Fat32Chains.Sweep | kernel/fat32.c:482-538 | takes the first free cluster of a range, if there is one |
| Fat32Chains.LowTaken | kernel/fat32.c:482-538 | after taking the lowest free cluster none below the new hint is free |
| Fat32Chains.AllocCluster | kernel/fat32.c:482-538 | when no cluster below the hint is free, the cluster taken is the lowest-numbered free one and the second sweep takes nothing; without a fault failure means that none is free, and then links, hint and sectors are as they were; either way no cluster below the hint is free afterwards and FAT copies that agreed agree |
| Fat32Slots.NewSlotFields | kernel/fat32.c:1490-1542 | a new directory slot reads back with the name, kind and cluster it was given |
| Fat32Slots.WrittenSlotFields | kernel/fat32.c:1663-1668 | a rewritten slot reads back with the cluster and size it was given and keeps its name |
| Fat32Slots.FindIff | kernel/fat32.c:1051-1100 | searching finds a name exactly when a live entry before the end of the directory bears it |
| Fat32Format.SlotBytes | kernel/fat32.c:1051-1100 | name, attributes, first cluster and size of a directory entry, and whether a search looks at it, from its 32 bytes |
| Fat32Format.DirectorySlot | kernel/fat32.c:1051-1100 | which 32 bytes of which sector are slot k of a directory |
| Fat32Slots.StoreNew | kernel/fat32.c:1102-1147 | storing an entry in the first unused slot makes its name findable there and leaves every other search as it was |
| Fat32Slots.StoreOver | kernel/fat32.c:1544-1677 | overwriting a live entry under the same name changes what that name finds and nothing else |
| Fat32Slots.StoreDeleted | kernel/fat32.c:1777-1852 | marking an entry deleted makes its name unfindable and leaves every other search as it was |
| Fat32Slots.AppendZeros | kernel/fat32.c:1102-1147 | appending a cleared cluster to a directory changes no search |
| Fat32Directory.SearchIsFind | kernel/fat32.c:1051-1100 | scanning a directory sector by sector finds what searching its list of slots finds |
| Fat32Directory.FindEntryInDir | kernel/fat32.c:1051-1100 | finds the entry of a name with its place on the disk; without a fault, failure means that there is none |
| Fat32Room.SearchFreeIsFree | kernel/fat32.c:1102-1147 | scanning for an unused slot sector by sector finds the first unused slot of the directory |
| Fat32Room.AppendedSlots | kernel/fat32.c:1102-1147 | a directory whose chain gets a cleared cluster shows its old slots followed by unused ones |
| Fat32Room.PatchedSlots | kernel/fat32.c:1490-1542 | writing a sector back with one entry changed changes that slot of the directory and no other |
| Fat32Room.FindFreeEntryInDir | kernel/fat32.c:1102-1147 | finds the first unused slot, growing a full directory by one cleared cluster; without a fault it fails only when the directory is full and no cluster is free |
| Fat32Tree.AppendedChain | kernel/fat32.c:1102-1147 | appending a free cluster to a chain keeps the FAT a set of acyclic, disjoint chains with one head each |
| Fat32Tree.ClearedChain | kernel/fat32.c:464-480 | freeing a whole chain removes it and keeps every other chain |
| Fat32Tree.CreatedTree | kernel/fat32.c:1490-1542 | storing a new file entry keeps the volume sound and makes its name denote an empty file |
| Fat32Tree.DeadTree | kernel/fat32.c:1490-1542 | storing a name that begins with the mark of a deleted entry adds nothing to the tree |
| Fat32Tree.FreedTree | kernel/fat32.c:1581-1588 | letting go of the chain of a file leaves every other file and directory its own chain |
| Fat32Tree.WrittenTree | kernel/fat32.c:1544-1677 | naming a chain that nobody else owns in a file's entry keeps the volume sound |
| Fat32Tree.RemovedFile | kernel/fat32.c:1777-1852 | erasing a file's entry keeps the volume sound and every other name as it was |
| Fat32Tree.RemovedDirectory | kernel/fat32.c:1777-1852 | erasing an empty directory and freeing its chain keeps the volume sound |
| Fat32Tree.MadeDirectory | kernel/fat32.c:1679-1775 | storing the entry of a new directory in its parent keeps the volume sound, with `..` naming the parent |
| Fat32Files.ReadFileEntry | kernel/fat32.c:1352-1402 | the buffer receives the file's bytes as far as it reaches and keeps what it held beyond them, for every cache setting and batch size; without a fault it succeeds |
| Fat32Format.FileByte | kernel/fat32.c:1352-1402 | byte i of a file is the byte of the disk that its place in the chain gives, cluster by cluster and sector by sector |
| Fat32Files.AllocChain | kernel/fat32.c:1590-1618 | takes a chain of exactly the clusters asked for, cleared and linked, or fails having tried to free what it took; without a fault it fails only for want of clusters and then leaves the links as they were, still with no free cluster below the hint |
| Fat32Files.AllocatedLinksOk | kernel/fat32.c:1590-1618 | the new chain joins the chains of the volume, disjoint from all of them |
| Fat32Files.FillChain | kernel/fat32.c:1629-1655 | writes the data along a chain, zeros past its end, and touches no cluster outside it |
| Fat32Files.FilledBytes | kernel/fat32.c:1629-1655 | a chain that holds the data reads back as the data |
| Fat32Paths.NameTo83 | kernel/fat32.c:325-360 | accepts exactly a base of 1 to 8 bytes, alone or with a dot and up to 3 bytes behind it, without separators or other dots; the eleven stored bytes are the base in capitals, blanks to eight, the rest in capitals, blanks to eleven |
| Fat32Names.StoredAlike | kernel/fat32.c:325-360 | two accepted names without blanks are stored alike exactly when they are the same but for the case of letters and a dot at the end |
| Fat32Paths.PathNextPart | kernel/fat32.c:1009-1027 | the next component of a path, as the reference splitting gives it |
| Fat32Paths.GetParentCluster | kernel/fat32.c:1149-1169 | the directory that `..` leads to: its parent, or the root |
| Fat32Paths.ResolveParentAndLeaf | kernel/fat32.c:1220-1281 | without a fault it resolves a path exactly as walking the directory tree component by component does, and fails exactly when that does |
| Fat32Names.WrittenFollows | kernel/fat32.c:1220-1281 | a path written as its components, each behind a separator, is followed component by component |
| Fat32Names.NameLeads | kernel/fat32.c:1220-1281 | a name behind directories denotes that name in the directory they lead to, exactly if they lead to one |
| Fat32Names.DotsName | kernel/fat32.c:1276-1277 | no path that ends in `.` or `..` denotes a name |
| Fat32Names.DotStays | kernel/fat32.c:1250-1254 | a component `.` changes nothing in where a path leads |
| Fat32Write.NeededClusters | kernel/fat32.c:1590 | the 32-bit count of clusters is the rounded-up quotient for every size below 4 GiB |
| Fat32Format.JustEnoughIs | kernel/fat32.c:1590 | a file takes the quotient of its size and the cluster size, rounded up |
| Fat32Write.MakeRoom | kernel/fat32.c:1102-1147 | room in a directory gives the tree no new meaning and takes at most one cluster |
| Fat32Write.WriteMeaning | kernel/fat32.c:1544-1677 | from the chains before a write to those after it: sound, with the number of free clusters changed by the old chain's length less the rounded-up quotient of the size |
| Fat32Write.LostMeaning | kernel/fat32.c:1590-1607 | a write that runs out of clusters has freed the old chain: what is left of the volume, exactly |
| Fat32Write.WriteEntry | kernel/fat32.c:1581-1677 | without a fault replacing a file's contents fails only for want of clusters |
| Fat32Api.TouchFilePath | kernel/fat32.c:1490-1542 | without a fault it succeeds exactly when the path leads to a directory that holds a file of the name, or has or can be given room for one; then the file exists and everything else reads as before; when it is refused, chains, directories and sectors are as they were; FAT copies that agreed agree and no cluster below the hint is free in either case |
| Fat32Api.WriteFilePath | kernel/fat32.c:1544-1677 | without a fault it succeeds exactly when the path resolves and the target can be written; then the file reads as the data, every other file and directory as before, the volume stays sound and the count of free clusters changes by exactly what was freed, taken, and used to grow the directory; a refusal changes nothing that can be found, running out of clusters is told apart and what it leaves is given; no cluster below the hint is free in any case |
| Fat32Api.WriteJudged | kernel/fat32.c:1544-1677 | what writing the entry comes to for the write as a whole: the file written, or, for want of clusters, a file that was there without its chain and one that was not there made and left empty |
| Fat32Api.WrittenWasWritable | kernel/fat32.c:1544-1677 | a write that succeeded was possible: t is no directory, could be created, and there were clusters enough |
| Fat32Lost.LostIsUnsound | kernel/fat32.c:1581-1607 | after a write that ran out of clusters on a file that had contents, no choice of chains and directories makes the disk a sound tree: the entry is still found and names a free cluster |
| Fat32Lost.LostWithoutContents | kernel/fat32.c:1581-1607 | on a file that was empty or not there, such a write leaves a sound tree in which every other name reads as before |
| Fat32Api.ReadFilePath | kernel/fat32.c:1411-1440 | without a fault it succeeds exactly when the path denotes a file, and returns its bytes and its length for every buffer size |
| Fat32Api.SameResolve | kernel/fat32.c:1220-1281 | changing what one file name denotes changes where no path leads |
| Fat32Api.WriteThenRead | kernel/fat32.c:1544-1677 | after a write the path reads as exactly the data, and every path that leads elsewhere reads as before |
| Fat32Names.WriteLeaves | kernel/fat32.c:1544-1677 | writing a file changes what no path reads as whose last component is another name: one that differs in more than the case of letters and a dot at the end |
| Fat32Remove.CountZero | kernel/fat32.c:1283-1350 | a directory lists nothing exactly when only `.` and `..` live in it |
| Fat32Remove.ListDirectory | kernel/fat32.c:1283-1350 | without a fault it counts the entries that a listing shows, stopping at the maximum |
| Fat32Format.CountIs | kernel/fat32.c:1283-1350 | what a listing counts: the entries in use that are no part of a long name and do not begin with a dot |
| Fat32Remove.RemovePath | kernel/fat32.c:1777-1852 | without a fault it succeeds exactly when the path denotes a file or an empty directory; then that name is gone, its clusters are free, and everything else is as before; when it is refused, everything is as it was; no cluster below the hint is free in either case |
| Fat32Mkdir.InitDirectory | kernel/fat32.c:1679-1775 | a cleared cluster gets the entries `.` and `..` and nothing else |
| Fat32Format.DotNames | kernel/fat32.c:1736-1752 | the names of the entries `.` and `..` |
| Fat32Mkdir.MkdirPath | kernel/fat32.c:1679-1775 | without a fault it succeeds exactly when the path leads to a directory that does not hold the name and clusters are free for it; the volume stays sound; when it is refused, the volume is as it was, or its last free cluster has made room in the parent and every search finds what it found; no cluster below the hint is free in either case |
| Fat32Names.MadeThenUp | kernel/fat32.c:1679-1775 | in a directory just made, `..` leads back to where it was made |
| Fat32Mount.WellSizedFits | kernel/fat32.c:559-668 | a boot sector whose areas fit the drive gives a geometry in which every address lies on the drive and the areas do not overlap |
| Fat32Format.Addresses | kernel/fat32.c:608-650 | where FAT entries and clusters lie on the drive, and the last cluster, from the fields of the boot sector |
| Fat32Format.BootIs | kernel/fat32.c:221-258 | which sectors are taken for a FAT32 boot sector, byte by byte |
| Fat32Format.GeometryIff | kernel/fat32.c:608-668 | whose fields are accepted: there is room for a cluster behind the FAT copies, and the root directory begins in a cluster that there is |
| Fat32Format.VolumeIs | kernel/fat32.c:576-606 | where a volume starts: at the first sector of the drive, or else where the first entry of the partition table says |
| Fat32Mount.Mount | kernel/fat32.c:559-668 | mounting accepts what the boot sector check accepts, starts with empty caches, and reads links and clusters as the disk holds them |
| Fat32Mount.Unmount | kernel/fat32.c:680-699 | nothing stays cached |
| Fat32Runs.AnsweredReads | kernel/fat32.c:1490-1852 | a call that succeeds keeps the volume sound and has the effect of its operation on what every name reads as; one that is refused keeps it sound and has none |
| Fat32Runs.PassedReads | kernel/fat32.c:1490-1852 | after any run of calls, refused ones included, every name reads as the successful ones say |
| Fat32Runs.RunCalls | kernel/fat32.c:1490-1852 | makes a list of calls to touch, write, remove and make directories, by path: up to a failed device request or a write that runs out of clusters, each is answered as it should be, the volume is a sound tree, every name reads as a map from names to bytes would after the successful calls, FAT copies go on agreeing, and no cluster below the hint is ever free |
| Fat32Runs.RemovedPaths | kernel/fat32.c:1777-1852 | removing adds no path: what resolves afterwards resolved to the same place before |
| Fat32Runs.MadePaths | kernel/fat32.c:1679-1775 | making a directory loses no path |
| Bitmaps.OneBit | kernel/memory.c:92-120 | setting or clearing one bit of a bitmap byte leaves the other seven |
| Bitmaps.Bitmap.FindRun | kernel/memory.c:177-193 | the lowest run of free pages of a length, or none exactly when there is none |
| Bitmaps.Bitmap.MarkRun | kernel/memory.c:195-203 | marks exactly the pages of a run |
| Bitmaps.RunTaken | kernel/memory.c:284-326 | taking a run of free pages lowers the number of free pages by exactly its length |
| PhysMemory.PhysAllocator.ReleaseRegion | kernel/memory.c:205-224 | frees exactly the pages that lie wholly in a region; the free count stays the number of clear bits |
| PhysMemory.ReleasedPages | kernel/memory.c:205-224 | which pages a release frees, in terms of addresses |
| PhysMemory.PhysAllocator.ReserveRegion | kernel/memory.c:226-241 | takes the pages a region touches; the free count stays the number of clear bits |
| PhysMemory.ReservedPages | kernel/memory.c:226-241 | which pages a reservation takes, in terms of addresses, and exactly when its rounded end wraps and it takes none |
| PhysMemory.PhysAllocator.AllocPages | kernel/memory.c:284-307 | takes the lowest run of free pages; zero means that there is none, unless a run at page 0 was taken |
| PhysMemory.PhysAllocator.AllocPage | kernel/memory.c:309-312 | takes the lowest free page, or fails exactly when none is free |
| PhysMemory.PhysAllocator.FreePages | kernel/memory.c:314-326 | frees the pages of a run that exist and are in use, and counts each once |
| PhysMemory.RunPages | kernel/memory.c:284-326 | which pages a request to free frees, those asked for that exist, and which taking a run takes |
| PhysMemory.Init | kernel/memory.c:243-282 | start-up frees the available regions, less the first megabyte, the kernel and the boot information, and page 0 is reserved |
| PageEntries.WordFields | kernel/memory.c:142-145 | unpacking an entry and packing it again gives the same 64-bit word |
| PageEntries.StoredEntries | kernel/memory.c:361 | the word that mapping stores holds the frame, the flags asked for, the no-execute bit asked for, and is present |
| PageEntries.FieldsWord | kernel/memory.c:142-145 | packing an entry and unpacking it again gives the same fields |
| PageEntries.AddressBits | kernel/memory.c:463-485 | the address masks select the frame, as a page address or rounded down to 2 MiB |
| PageEntries.LargeRounds | kernel/memory.c:481-483 | the first frame of a 2 MiB page is its frame number rounded down to 512 |
| PageEntries.TestBits | kernel/memory.c:162-167 | the tests for a present entry and a large page look at the low field of the word alone |
| PageEntries.WiderBits | kernel/memory.c:345-359 | passing user access and writing on to an entry above changes the low field alone |
| PageEntries.LeafBits | kernel/memory.c:333-365 | an entry built from an address and flags keeps the frame, the low flags and the no-execute bit |
| PageEntries.SplitBits | kernel/memory.c:394-437 | entry i of the table that replaces a 2 MiB page, bit for bit |
| PageTables.FlagsTranslate | kernel/memory.c:333-392 | changing flags that translation does not look at moves no address |
| PageTables.LeafTranslate | kernel/memory.c:333-365 | changing a last-level entry changes the translation of its page and of no other |
| PageTables.AddedTranslate | kernel/memory.c:162-175 | installing an empty table where nothing was mapped moves no address |
| PageTables.SplitTranslate | kernel/memory.c:394-437 | replacing a 2 MiB entry by a table of 512 small ones moves no address |
| PageTables.PokeTable | kernel/memory.c:152-175 | tables stay in distinct frames that are in use, and a new one takes a frame that was free |
| Paging.PathDetermines | kernel/memory.c:122-140 | two 48-bit addresses have the same four indices exactly when they lie in one page |
| Paging.PathDigits | kernel/memory.c:122-140 | the four indices are the digits of the address to base 512, above the twelve bits of the page offset |
| Paging.Mmu.GetPhys | kernel/memory.c:463-485 | the physical address that the tree gives for a virtual one, small or large page, or zero |
| Paging.Mmu.MapPage | kernel/memory.c:333-365 | success adds exactly the page asked for, with the entry asked for, and every table above it has user access if that was asked for, and writing likewise, so that the page can be used exactly as asked; failure, even after installing tables, leaves every translation as it was, and has one of three causes: an unaligned address, a page mapped already, or no free frame for a table; either way no entry in use loses a flag, nor gains any but these two |
| Paging.Mmu.PassFlags | kernel/memory.c:348-349 | an entry above the page gets the user and writing flags asked for, and keeps all it had |
| PageAccess.AccessAsked | kernel/memory.c:333-365 | a page mapped with some flags can be used in user mode exactly when they ask for it, and written likewise |
| PageAccess.LetsEntry | kernel/memory.c:333-365 | a way lets flags through only if each entry on it has them |
| PageAccess.KeptEntry | kernel/memory.c:333-365 | what may have become of an entry in use: the same place, every flag it had, and no new one but user access and writing |
| Paging.Mmu.SetPageFlags | kernel/memory.c:367-392 | gives one small page the flags asked for, changes no other entry and moves no address; it succeeds exactly on a small page |
| Paging.Mmu.UnmapPage | kernel/memory.c:439-461 | removes exactly the page, if it is a small one, and otherwise does nothing |
| Paging.Mmu.SplitHugePage | kernel/memory.c:394-437 | leaves the translation of every address as it was; afterwards the address lies in no large page |
| Paging.SplitFlags | kernel/memory.c:394-437 | after a split none of the 512 pages can be used in user mode, and none is held from execution, whatever the 2 MiB page was |
| Paging.MappedPage | kernel/memory.c:463-485 | an address is mapped exactly when it lies in a small or a large page, never both |
| VirtRanges.VirtualWindow.ReservePages | kernel/memory.c:527-535 | reserves the lowest free run of the window and changes no translation |
| VirtRanges.VirtualWindow.AllocPages | kernel/memory.c:537-564 | all or nothing: success maps the lowest free run of pages to the lowest run of free frames, for writing and not for user mode; failure restores the window, every translation and every frame but those of new tables, and has one of the causes listed |
| VirtRanges.VirtualWindow.FreePages | kernel/memory.c:566-586 | whatever the pages lead to: those in the window are marked free, small ones are unmapped, large ones stay mapped, their frames below 4 GiB are given back and no other translation changes; afterwards the page tables lie in frames in use if and only if they did before and no frame given back holds one |
| VirtRanges.SpanPages | kernel/memory.c:566-576 | which pages of the window a request to free covers: for an aligned address in the window those whose addresses are asked for, for any other none |
| VirtRanges.TreeOkIs | kernel/memory.c:314-326 | that no table lies in a free frame is all that sound page tables ask of the allocator |
| VirtRanges.StillMapped | kernel/memory.c:566-586 | a page that has been freed is still mapped exactly when it lies in a 2 MiB page or was mapped to frame 0; it then leads where it did, in the first case to a frame that is free if it lies below 4 GiB |
| VirtRanges.BreakByFreeing | kernel/memory.c:566-586 | a run from an empty address space in which freeing a page makes the frame of the root table the lowest free one |
| VirtRanges.AllocatedFreeable | kernel/memory.c:537-586 | freeing what has just been allocated gives back no frame that holds a table |
| VirtRanges.AllocThenFree | kernel/memory.c:537-586 | freeing undoes allocating: every translation and the window are restored, and every frame but those of tables made on the way |
| RamTree.DepthBound | kernel/fs.c:248-302 | a node's depth is below the number of nodes, so climbing to the root ends |
| RamTree.CreatedTree | kernel/fs.c:280-302 | making a node in a live directory under a free name keeps the tree |
| RamTree.RemovedNode | kernel/fs.c:393-418 | taking out a childless node keeps the tree, with every other node where it was |
| RamTree.MovedNode | kernel/fs.c:696-731 | moving a node below a live directory that does not lie below it keeps the tree, so a move makes no cycle |
| RamTree.HungBelowDead | kernel/fs.c:696-731 | hanging a node below a node that is not in use breaks the tree, whatever the child lists |
| RamPaths.PrintedResolves | kernel/fs.c:354-391 | resolving the printed path of a live node gives the node |
| RamPaths.SplitIsResolve | kernel/fs.c:304-352 | splitting off the last component and looking it up is resolving the whole path |
| RamPaths.WalkLive | kernel/fs.c:354-391 | from a live directory paths lead to live nodes |
| RamPaths.CreatedSplit | kernel/fs.c:304-352 | creating the last component of a path leaves the way to it as it was |
| RamFs.RamFs.AllocNode | kernel/fs.c:248-267 | takes the lowest free node, or fails exactly when there is none |
| RamFs.RamFs.FindChild | kernel/fs.c:269-278 | the child that bears a name, or none exactly when none does |
| RamFs.RamFs.AddChild | kernel/fs.c:280-302 | makes a node first in the child list and keeps the tree; and exactly when it fails |
| RamFs.RamFs.ResolvePath | kernel/fs.c:354-391 | finds the node that walking the path component by component leads to, or -1 exactly when it leads to none |
| RamWalks.DotsLead | kernel/fs.c:379-384 | a path with `/..` behind it leads to the parent of what it leads to, or to the root from the root; with `/.` it leads to the same |
| RamWalks.NameLeads | kernel/fs.c:386-387 | with a slash and any other component behind it, it leads to the child that bears the name, or nowhere |
| RamWalks.OneLeads | kernel/fs.c:361-366 | a path of one component starts in the current directory, one that begins with a slash at the root |
| RamFs.RamFs.SplitParentAndName | kernel/fs.c:304-352 | splits a path as the reference splitting does, and fails exactly when that does |
| RamWalks.SplitAppended | kernel/fs.c:304-352 | splitting off a last component finds the directory that the rest leads to, if all on the way are directories |
| RamFs.RamFs.UnlinkNode | kernel/fs.c:393-418 | takes a node out of its parent's list and changes no other list |
| RamFs.RamFs.Mkdir | kernel/fs.c:592-597 | keeps the tree; succeeds exactly when the path splits, the name is free and good and a node is free |
| RamWalks.ResolveKept | kernel/fs.c:280-302 | a path that leads somewhere leads there still when something has been made |
| RamWalks.MadeThenUp | kernel/fs.c:280-384 | in a directory just made, `..` leads back to the directory it was made in |
| RamFs.RamFs.Touch | kernel/fs.c:599-612 | keeps the tree; succeeds exactly when a file of the name is there, or nothing of the name is there and it can be made |
| RamFs.RamFs.WriteFile | kernel/fs.c:614-636 | keeps the tree; from a live current directory it succeeds exactly when the path denotes a file or can be made one, and the file then holds the data |
| RamFs.RamFs.ReadFile | kernel/fs.c:638-652 | reads exactly the file's bytes as far as the buffer takes them, and fails exactly when the path denotes no file |
| RamFs.WriteThenRead | kernel/fs.c:614-652 | from a live current directory, writing a file and reading it at the same path gives the data back, as far as a file of 8191 bytes and the buffer take them |
| RamFs.RamFs.Rm | kernel/fs.c:667-679 | removes a file or an empty directory other than the root and keeps the tree; the current directory goes with it exactly when it is the node removed |
| RamFs.RamFs.Cd | kernel/fs.c:681-687 | moves to a directory exactly when the path denotes one |
| RamFs.RamFs.Mv | kernel/fs.c:696-731 | when it succeeds and when it fails, from any current directory; a directory cannot be moved below itself; on success the tree is kept, with the node's contents and children, if the new parent is in use, and broken if it is not; from a live current directory the new parent always is |
| RamFs.RelinkedTree | kernel/fs.c:718-723 | below a live directory that does not lie below it, a node is part of the tree again, and following parents still ends everywhere |
| RamFs.BreakByMove | kernel/fs.c:667-731 | a run that breaks the tree: the current directory is removed and a file is moved into it |
| RamFs.RamFs.GetPwd | kernel/fs.c:733-776 | prints the names from the root to a live current directory, as far as they fit the buffer |
| RamFs.PwdResolves | kernel/fs.c:733-776 | with a buffer that takes it, the printed current directory resolves to the current directory |
| ElfImage.PowerOfTwoIs | kernel/elf.c:126-129 | the alignment test accepts exactly the powers of two |
| ElfImage.RoundingIs | kernel/elf.c:116-119 | rounding up gives the least multiple of 4096 that is not below, unless it wraps, and rounding down the greatest that is not above |
| ElfImage.SegmentFields | kernel/elf.c:34-62 | the fields of the header and of a program header, byte by byte |
| ElfImage.BiasIs | kernel/elf.c:728-732 | what is added to the addresses of an image: nothing for an executable, a constant for a shared object |
| ElfImage.TableInside | kernel/elf.c:255-263 | the test of the program-header table: it has a place, entries of at least 56 bytes, and ends in the image |
| ElfImage.ApartIs | kernel/elf.c:327-346 | two windows are apart exactly when bytes of both segments lie in no page |
| ElfImage.CheckPlaced | kernel/elf.c:286-363 | accepts exactly the segments whose file range lies in the image, is no longer than the memory range, does not wrap and is properly aligned |
| ElfImage.PlacedIs | kernel/elf.c:304-326 | for a segment with bytes in memory: its bytes of the file are in the image and no more than those in memory, its addresses are 64-bit ones, and its alignment, a power of two, is kept |
| ElfImage.ValidateSegments | kernel/elf.c:286-363 | accepts exactly the program headers that ask for no interpreter, are well placed, have disjoint page windows and hold the entry point |
| ElfImage.Validate | kernel/elf.c:717-738 | accepts exactly the images that meet all header and segment conditions |
| ElfPages.ListedAreJobs | kernel/elf.c:741-767 | every page of every segment is loaded |
| ElfPages.JobsAreDistinct | kernel/elf.c:741-767 | no page is loaded twice: the validated windows share no page, wherever the image is biased to |
| ElfPages.CanonicalPath | kernel/memory.c:122-140 | canonical 64-bit addresses with the same four indices lie in one page |
| ElfPages.AcceptedTargets | kernel/elf.c:286-363 | an accepted image that does not wrap and whose pages are unmapped has targets of its own for every page |
| ElfPages.ReadsByte | kernel/elf.c:818-850 | a byte read through the page tables at an address of a segment is its file byte, or zero beyond them |
| ElfLoad.FileBytes | kernel/elf.c:828-849 | the clamped copy puts exactly the file bytes that fall into a page where they belong |
| ElfLoad.NoFileBytes | kernel/elf.c:835-836 | a page outside the file bytes is all zero |
| ElfLoad.Loader.FillPage | kernel/elf.c:818-850 | clearing and copying make a frame the image of its page and touch no other frame |
| ElfLoad.Loader.Rollback | kernel/elf.c:131-140 | unmapping and freeing in reverse restores every translation and gives back every frame taken |
| ElfLoad.Loader.LoadPage | kernel/elf.c:776-862 | one page more is mapped and filled, or everything is taken back |
| ElfLoad.LoadIsImage | kernel/elf.c:740-864 | when every page has been loaded, every byte of every segment reads as it should, from frames that were free and no longer are, and every other address leads where it did |
| ElfLoad.Loader.Load | kernel/elf.c:708-883 | success means an accepted image; on one that does not wrap and whose pages were unmapped, after success every byte of every segment reads as in the file, and zero behind that, can be used in user mode, and written and executed as the segment says (where no byte of the file lies in a page, always); failure moves no address; and it does succeed with at most 1024 pages and four free frames for each |
| TaskLaws.SwitchKeeps | kernel/task.c:291-311 | going over to the next task keeps one running task, the current one, and at most one task waiting for the timer |
| TaskLaws.SameFirst | kernel/task.c:291-311 | whenever a task other than task 0 stops running there is another to run, so the halt for want of tasks is not reached |
| TaskLaws.DropKeeps | kernel/task.c:155-186 | taking tasks other than task 0 and the current one out of the ring keeps the invariant |
| TaskLaws.InsertKeeps | kernel/task.c:400-410 | a new task keeps the invariant exactly when its id is not zero |
| TaskLaws.CallKeeps | kernel/task.c:155-658 | every call keeps the ring of exactly the slots in use, the one running task and task 0 runnable, exactly when it hands out no id zero |
| TaskLaws.LostByKill | kernel/task.c:202-239 | the timer comes to be held off for good exactly by a kill that the guards let through on the task it has switched away from, or by killing all when that task is unprotected and not current |
| TaskRuns.RunKeeps | kernel/task.c:315-658 | the invariant in every run that creates at most 2^32 - 2 tasks, and unique ids in every run that creates fewer |
| TaskRuns.WrapBreaksRing | kernel/task.c:341-415 | once the id counter has gone round, the next task but one is linked in twice |
| TaskRuns.AfterRounds | kernel/task.c:341-415 | creating a task and killing it k times leaves task 0 alone and the id counter k further, round its 2^32 values |
| TaskRuns.RingBreaks | kernel/task.c:341-415 | so the bound is exact: a run from the start that creates 2^32 - 1 tasks breaks the invariant, and one that creates 2^32 the ring |
| TaskRuns.TimerIsLost | kernel/task.c:202-239 | a run of four calls from the start that loses the timer |
| TaskRuns.LostForever | kernel/task.c:202-239 | once the timer is lost it never switches again, in any run |
| TaskRuns.QuietGains | kernel/task.c:291-311 | any call but creating, killing and stopping brings a ready task no further from its turn, and a switch brings it nearer |
| TaskRuns.RunsInTurn | kernel/task.c:291-311 | a ready task with n tasks ahead of it runs at the latest at switch n + 1, if nothing is created, killed or stopped meanwhile |
| TaskScheduler.Scheduler.constructor | kernel/task.c:315-339 | start-up: task 0 alone, running, linked to itself |
| TaskScheduler.Scheduler.FindReady | kernel/task.c:293-295 | following the links finds the first ready task in ring order |
| TaskScheduler.Scheduler.SwitchToNext | kernel/task.c:291-311 | the next ready task runs; one that comes back from the timer lets go of it |
| TaskScheduler.Scheduler.PreemptTick | kernel/task.c:202-239 | switches exactly when preemption is on, not held off, no user program runs and another task is ready |
| TaskScheduler.Scheduler.Yield | kernel/task.c:417-425 | gives the processor to the next ready task and stays ready |
| TaskMeaning.YieldMeans | kernel/task.c:417-425 | giving up the processor: the current task stays ready, and the next ready one round the ring runs, or the same if there is none |
| TaskMeaning.TickMeans | kernel/task.c:202-239 | when a tick goes over to the next ready task, and what it leaves of the current one; otherwise nothing happens |
| TaskMeaning.ExitMeans | kernel/task.c:427-451 | a user program ends; or the current task does, unless it is task 0, and the next ready one runs |
| TaskScheduler.Scheduler.Exit | kernel/task.c:427-451 | ends the user program, or the current task, which is never task 0; another task then runs |
| TaskScheduler.Scheduler.UnlinkTask | kernel/task.c:155-167 | one pass round the circle takes a slot out of it, or finds that it is not in it |
| TaskScheduler.Scheduler.Kill | kernel/task.c:592-607 | removes the first task with the id unless it is protected or current; id 0 names a free slot and changes nothing |
| TaskMeaning.KillMeans | kernel/task.c:592-607 | killing is possible on the first task with the id if it is unprotected and not current, and frees its slot, takes it out of the ring and changes no other |
| TaskScheduler.Scheduler.KillAll | kernel/task.c:609-625 | removes exactly the tasks that are neither task 0, current nor protected, and counts them |
| TaskMeaning.KillAllMeans | kernel/task.c:609-625 | killing all frees every slot in use but those of task 0, of the current task and of protected ones, and keeps the order of the rest |
| TaskScheduler.Scheduler.ReapZombies | kernel/task.c:188-200 | removes exactly the tasks that have ended |
| TaskMeaning.ReapMeans | kernel/task.c:188-200 | reaping frees the slots of the tasks that have ended, and no other |
| TaskScheduler.Scheduler.Stop | kernel/task.c:627-642 | succeeds exactly on a ready task that is not protected and not current; then the first task with the id is stopped, and every other slot is as it was |
| TaskMeaning.StoppedRests | kernel/task.c:291-311 | a stopped task does not run until it is continued, in any run in which no task is created |
| TaskScheduler.Scheduler.Continue | kernel/task.c:644-658 | succeeds exactly on a stopped task; then the first task with the id is ready, and every other slot is as it was |
| TaskMeaning.ContinuedRuns | kernel/task.c:644-658 | a task that has been continued runs in its turn, as every ready task does |
| TaskMeaning.NobodyMeant | kernel/task.c:592-658 | a call that names no task changes nothing |
| TaskScheduler.Scheduler.SetProtection | kernel/task.c:476-498 | protects or exposes a task other than task 0 |
| TaskMeaning.ProtectMeans | kernel/task.c:476-498 | protecting and exposing are possible on every task but task 0, and change what is protected for that task alone |
| TaskScheduler.Scheduler.Create | kernel/task.c:341-415 | puts a ready task behind task 0, in a free slot or that of an ended task; the circle stays sound exactly when the id handed out is not zero |
| TaskMeaning.CreateMeans | kernel/task.c:341-415 | a new task is ready, has the next id, at most 23 characters of its name and the lowest free slot, and stands right behind task 0 |
| TaskMeaning.NotCreated | kernel/task.c:341-371 | without memory for a stack, or a slot, no task is created; a task that has ended may have given up its slot |
| TaskScheduler.CircleIsSimple | kernel/task.c:287-311 | following the links from task 0 comes back after as many steps as slots are in use, and visits none twice |
| TaskScheduler.CircleVisits | kernel/task.c:287-311 | on the way it visits exactly the slots whose id is not zero |
| UserHeap.Heap.UnmapRange | kernel/task.c:681-693 | takes back the heap's pages from one on: their translations are gone, their frames free, and the pages below stay mapped |
| UserHeap.Heap.Grow | kernel/task.c:751-782 | maps and clears the pages up to the new break, or restores everything; it fails only if a page was mapped already or there were fewer than four free frames for each |
| UserHeap.Heap.SetBreak | kernel/task.c:721-790 | moves the break with whole pages; a failure moves no address and changes no frame in use |
| UserHeap.Heap.HeapMaps | kernel/task.c:721-790 | after any sequence of calls the heap's pages lead to frames of their own, in order, and every other user page leads where it did when the heap was set up |
| UserHeap.Heap.BreakMapped | kernel/task.c:721-790 | exactly the pages from the base of the heap to its break lead to frames of the heap |
| UserHeap.Heap.HeapAccess | kernel/task.c:768-770 | every page of the heap can be used and written in user mode, and none executed |
| UserHeap.Heap.Reset | kernel/task.c:695-709 | every address leads where it did when the heap was set up, and all frames but those of tables are free again |
| UserHeap.Heap.SetUp | kernel/task.c:711-719 | an empty heap, after taking back the one there was |
| PipeRings.RingPut | kernel/syscall.c:550-557 | a byte stored behind the last one joins the queue |
| PipeRings.RingDrop | kernel/syscall.c:510-511 | moving the head on takes bytes off the front of the queue, wherever the ring wraps |
| PipeRings.FifoKept | kernel/syscall.c:492-561 | whatever a queue is told to put and take, what has been taken is a prefix of what has been written and the rest is queued |
| PipeTraffic.MakeCall | kernel/syscall.c:475-629 | a read, write, close or new pipe moves the queue of each pipe by exactly the bytes that user memory holds where the call was told to put or find them, or not at all |
| PipeTraffic.StaysBalanced | kernel/syscall.c:475-562 | such a step keeps the balance of a pipe |
| PipeTraffic.MakeCalls | kernel/syscall.c:475-629 | over any run of such calls, through any descriptors, what a pipe held when it was made or the run began and all that writes put in is, in order, all that reads have left in user memory and what is still queued |
| PipeRings.StoredReads | kernel/syscall.c:203-212 | bytes copied to user memory read back, and no other address changes |
| PipeRings.Pipe.IsFifo | kernel/syscall.c:66-75 | every pipe is a queue of at most 4096 bytes: those written and not taken yet, in order |
| PipeRings.Pipe.Write | kernel/syscall.c:541-560 | appends as many bytes as there is room for; a byte that cannot be read from user memory leaves the queue as it was |
| PipeRings.Pipe.Read | kernel/syscall.c:495-513 | takes as many bytes off the front as there are; a byte that cannot be stored leaves the queue as it was |
| PipeMeaning.WriteMeans | kernel/syscall.c:530-562 | a write puts as many bytes of user memory behind the queue as the 4096 of a pipe leave room for and gives their number, or gives -1 and changes nothing |
| PipeMeaning.ReadMeans | kernel/syscall.c:495-513 | a read stores as many bytes from the front of the queue as there are and gives their number, or gives -1 and leaves the queue |
| Descriptors.OneHolder | kernel/syscall.c:77-85 | an open end of a pipe is held by exactly one descriptor slot, a closed one by none |
| Descriptors.ClosedKeeps | kernel/syscall.c:244-268 | closing a descriptor keeps that |
| Descriptors.MadeKeeps | kernel/syscall.c:597-615 | making a pipe keeps that |
| Descriptors.CloseBelowKeeps | kernel/syscall.c:431-454 | so does closing all descriptors, after which every pipe is free |
| Descriptors.FdTable.CloseFd | kernel/syscall.c:244-268 | closes one descriptor and its end of a pipe, and touches no queue |
| Descriptors.FdTable.CleanUp | kernel/syscall.c:431-454 | no slot is in use afterwards and every pipe is free |
| Descriptors.FdTable.OpenFile | kernel/syscall.c:220-242 | takes the first free slot for an existing file |
| Descriptors.FdTable.ReadFd | kernel/syscall.c:475-528 | reads from a pipe or a file: the queue or the position moves on exactly when all bytes could be stored |
| PipeMeaning.FileReadMeans | kernel/syscall.c:516-527 | a read of a file gives the bytes from its position on and moves the position behind them |
| Descriptors.FdTable.WriteFd | kernel/syscall.c:530-562 | writes to a pipe whose reading end is open, all or nothing as far as there is room |
| Descriptors.FdTable.MakePipeFor | kernel/syscall.c:565-629 | takes the first free pipe and the first two free slots and stores both descriptors in user memory; a failure leaves descriptors and ends as they were |
| PipeMeaning.MadeMeans | kernel/syscall.c:597-628 | the two numbers stored are the descriptors of the reading and the writing end, eight bytes each, the lowest byte first |
| NetChecksum.Fold | kernel/net.c:143-144 | folding carries gives the one's-complement residue of the sum |
| NetChecksum.SumFits | kernel/net.c:134-146 | the running sum does not overflow 64 bits |
| NetChecksum.IpChecksum | kernel/net.c:134-146 | the complement of the one's-complement sum of the buffer |
| NetChecksum.ByteWeights | kernel/net.c:134-146 | what each byte adds to the sum, in either order; a last byte without a partner is followed by zero |
| NetChecksum.StoredVerifies | kernel/net.c:134-146 | a buffer of any length that carries its checksum in an aligned word sums to zero again (section 1 of RFC 1071) |
| NetChecksum.ChangeShows | kernel/net.c:134-146 | changing one word of such a buffer shows, except between all zeros and all ones |
| NetChecksum.OrdersAgree | kernel/net.c:134-154 | summing in the other byte order multiplies the sum by 256 (section 2(B) of RFC 1071) |
| NetChecksum.SwappedIsChecksum | kernel/net.c:1146-1153 | the sum taken in network order and swapped stores the same bytes as the sum taken in host order |
| NetChecksum.TcpChecksum | kernel/net.c:1128-1154 | the TCP checksum is that of pseudo header and segment |
| NetChecksum.SegmentVerifies | kernel/net.c:1185-1200 | a segment that carries its checksum verifies with its pseudo header |
| TcpStream.StepStays | kernel/net.c:1268-1290 | whatever arrives, a step that drops no byte it acknowledges keeps what was handed out, followed by the buffer, a prefix of the sender's stream |
| TcpStream.PrefixOfStream | kernel/net.c:1255-1290 | so does every run under any loss, duplication and reordering of slices of a stream shorter than 2^32 bytes, with any reads in between, as long as every accepted segment fits the buffer |
| TcpStream.FitsExactly | kernel/net.c:1270-1281 | the proviso is exact: an accepted segment leaves the connection in step if and only if it fits |
| TcpStream.DroppedByte | kernel/net.c:1272-1280 | a stream and a run in which an acknowledged byte is dropped and the prefix property fails |
| TcpStream.RepliesAreHonest | kernel/net.c:1279-1280 | an acknowledgement covers exactly the bytes taken, if the segment fits |
| TcpStream.FinCompletes | kernel/net.c:1283-1289 | the end of the stream is believed from any FIN; the whole stream has been taken exactly when that segment came in order or everything had been taken before |
| TcpLife.HandshakeIs | kernel/net.c:1257-1266 | waiting for an answer, only a segment with SYN and ACK opens a connection; the next byte is then the one after the SYN, and the number it acknowledges is believed, whatever it is |
| TcpLife.ResetEnds | kernel/net.c:1247-1253 | a reset ends a connection in every state; no byte is lost and nothing is sent |
| TcpLife.PrefixFromSyn | kernel/net.c:1255-1290 | the prefix property from the set-up on: the first byte of the stream is the one after the SYN |
| TcpLife.StateTells | kernel/net.c:1255-1332 | in an orderly run the state tells whether this side has closed, and while it has not, whether the other side has; a connection is over only after both have |
| TcpLife.FinEnds | kernel/net.c:1292-1320 | once this side has closed first, a connection is over exactly when a FIN has arrived |
| TcpLife.LastEnds | kernel/net.c:1322-1328 | once it has closed second, it is over as soon as anything arrives that acknowledges something |
| TcpLife.OverForGood | kernel/net.c:1464-1499 | once a connection is given up nothing more is handed out or taken in, whatever comes |
| TcpLife.FinAcknowledged | kernel/net.c:1282-1319 | a FIN is acknowledged exactly when it carries no data, but for one coincidence |
| TcpLife.AnsweredIff | kernel/net.c:1247-1332 | which segments are answered at all |
| TcpLife.OwnNumber | kernel/net.c:1474-1489 | what this side sends is numbered on by one for its FIN |
| TcpReceiver.TcpConn.Handle | kernel/net.c:1247-1332 | handles a segment in place, with the acknowledgements it sends |
| TcpReceiver.TcpConn.Take | kernel/net.c:1436-1454 | hands out bytes from the front of the buffer and moves the rest up |
| TcpLife.ReadHands | kernel/net.c:1436-1454 | a read hands out as many bytes as are asked for and there, from the front, and keeps the others |
| TcpReceiver.TcpTable.HandleTcp | kernel/net.c:1206-1333 | the first active connection with the segment's ports and address takes it, and every other stays as it is; a malformed payload changes nothing |
| TcpLife.WireReads | kernel/net.c:1185-1243 | a segment laid out as in section 3.1 of RFC 9293, with any options, is read back as it was and belongs to the connection with its ports and address |
| BasicText.IntToText | kernel/basic.c:284-310 | the digits of a number, with a minus sign |
| BasicText.ParseInt | kernel/basic.c:115-135 | reads a number, wrapping at 32 bits, or finds that there is none |
| BasicText.TextReadsBack | kernel/basic.c:284-330 | every 32-bit number written as text reads back as that number |
| BasicMeaning.BitwiseBits | kernel/basic.c:806-823 | AND, OR and XOR combine numbers bit by bit |
| BasicFuel.ExprSettles | kernel/basic.c:783-830 | more fuel never changes an answer |
| BasicFuel.OneMeaning | kernel/basic.c:783-830 | an expression has one meaning: two evaluations that end agree |
| BasicEnds.EvaluationEnds | kernel/basic.c:706-735 | if user functions can be ranked so that each body mentions lower ones only, every expression has a value or is refused: some fuel is enough |
| BasicEnds.PlainEnds | kernel/basic.c:783-830 | so it does without user functions |
| BasicEnds.NeverEnds | kernel/basic.c:706-735 | user functions whose bodies begin, behind blanks, signs, NOT and brackets, with calls of one another on arguments that are never refused have no value, however much fuel there is |
| BasicEnds.SafeExprComes | kernel/basic.c:551-830 | an expression made of numbers, variables that no bracket follows, + - * AND OR XOR NOT, signs, brackets, ABS, RND and EOF is never refused and ends where the text says, whatever variables, arrays and functions there are |
| BasicEnds.SafeNeverFails | kernel/basic.c:706-735 | so an argument in brackets made like that is never refused |
| BasicEnds.CircularTexts | kernel/basic.c:706-735 | user functions whose bodies begin with calls of one another on arguments made like that have no value, which can be seen in the program text |
| BasicEnds.CallsItselfForever | kernel/basic.c:706-735 | for instance DEF FNA(X)=FNA(X) |
| BasicEnds.RefusedFirst | kernel/basic.c:706-735 | but not DEF FNA(X)=FNA(1/0): its argument is refused before the call |
| BasicInterp.FindText | kernel/basic.c:691-701 | the first place at which a text occurs in another, or zero |
| BasicInterp.Interpreter.CallFn | kernel/basic.c:706-735 | overwriting the parameter, evaluating the body and putting the parameter back gives the value of the body with the parameter bound to the argument, and leaves all variables as they were on success and on failure |
| BasicInterp.Interpreter.ParseExpr | kernel/basic.c:783-830 | evaluating from text gives the expression's value for the variables; it leaves all 26 variables as they were and moves the cursor only on success |
| BasicInterp.Interpreter.ParseTerm | kernel/basic.c:744-781 | the same for products, with division by zero refused |
| BasicInterp.Interpreter.ParseFactor | kernel/basic.c:551-742 | the same for signed operands and NOT |
| BasicInterp.Interpreter.ParseValue | kernel/basic.c:191-218 | the same for numbers, variables and array elements |
| BasicInterp.Interpreter.ParseStr | kernel/basic.c:392-549 | the same for string expressions, whose numeric arguments leave all variables as they were |
| BasicTreeReads.WrittenReads | kernel/basic.c:551-830 | an expression tree written as text and evaluated has the value of the tree, or is refused as the tree is: products before sums, each from left to right, signs, NOT, brackets, array elements, functions of numbers and strings, and user functions |
| BasicTreeReads.WrittenPhraseReads | kernel/basic.c:392-549 | the same for string expressions: quoted text, string variables, + and the functions of strings |
| BasicTrees.SumsAgree | kernel/basic.c:796-823 | + and - cut down to 32 bits in two's complement; AND, OR and XOR on every bit of 32 |
| BasicTrees.ProductsAgree | kernel/basic.c:757-775 | * / and % cut down to 32 bits: division rounds towards zero, the remainder has the sign of the dividend, and a divisor of zero is refused |
| BasicTrees.FindIs | kernel/basic.c:691-701 | INSTR gives the first place at which one string occurs in another, counted from one, or zero exactly if there is none |
| BasicTrees.PartsAre | kernel/basic.c:428-520 | which characters LEFT$, RIGHT$ and MID$ give, for every number |
| BasicTrees.LengthsAndCodes | kernel/basic.c:392-680 | LEN, ASC, CHR$ and STR$; VAL reads back what STR$ has written |
| BasicTrees.DrawIs | kernel/basic.c:595-609 | RND draws the next number of its sequence and gives a number below its argument |
| BasicTrees.ValueIs | kernel/basic.c:640-680 | VAL reads the digits that a string begins with, behind blanks and a minus sign |

## Left out

- Fat32Api.WriteFilePath: the claims about names are for calls in which no device request failed and for data below 4 GiB, because a failed read makes the driver take a name for missing and sizes are stored in 32 bits.
- Fat32Runs.RunCalls: a run ends at the first failed device request and at the first write that runs out of clusters, because nothing is claimed about operations on a volume that is not well formed.
- Fat32Mount.Mount: reading links and clusters as the disk holds them is claimed for a boot sector whose areas fit the drive (`WellSized`), which mounting does not check.
- The `_root` functions of the FAT32 driver, attributes, statistics, free-space reporting and error strings.
- RamFs.RamFs.Mv: nothing is claimed about operations that follow a move which broke the tree.
- Copying, listing and status calls of the RAM filesystem, and the files it is seeded with.
- ElfLoad.Loader.Load: contents are claimed for images whose biased ranges do not wrap, stay canonical and were unmapped (`Fits`), and image sizes within 4 KiB of 2^64 are excluded, because the copy offsets would wrap.
- Replacing existing mappings, the table of active images, unloading and symbols.
- Pages of 1 GiB, demand paging, the kernel heap, and the diagnostic walk of the page tables.
- UserHeap.Heap.SetUp: asks for a window that ends a page below 2^47, and that nothing else changes user pages while the heap is in use.
- TaskRuns.RunsInTurn: counts switches, not timer ticks, because the timer is held off until the preempted task resumes.
- TaskScheduler.Scheduler.Create: whether stacks could be allocated is a parameter; stacks and register contents are not modelled, and the links are an array beside the tasks.
- Protecting by name, listing tasks, and the change to user mode, of which only the flag is kept.
- NetChecksum.IpChecksum: the running sum is unbounded; `NetChecksum.SumFits` says for which lengths it fits 64 bits.
- TcpReceiver.TcpConn.Take: one attempt to read; the loop that polls until there is something depends on the clock.
- TcpLife.StateTells: how a connection is made active and its SYN is sent, and all timeouts, are left out; a run starts from a connection that waits for its SYN's answer or is open, and giving up is an event.
- TCP retransmission, sending, ARP, DHCP and DNS; acknowledgements are outputs of a step.
- Descriptors.FdTable.ReadFd: descriptor 0 and the terminal are left out, and so are seeking, mapping and polling; user memory is a map from mapped addresses that shares nothing with the kernel's buffers, and fields of unused descriptors are not kept.
- Descriptors.FdTable.WriteFd: descriptors 1 and 2, which write to the terminal, are left out.
- Descriptors.FdTable.OpenFile: the path, copied from user memory before, and whether it names a file are parameters.
- BasicInterp.Interpreter.ParseExpr: fuel bounds the depth of evaluation, and an evaluation that runs out has no claim on its value; `BasicEnds.EvaluationEnds` says when enough can be given. Numbers wrap at 32 bits where C leaves overflow undefined, strings hold no NUL, and whether a file has ended is a parameter.
- BasicTreeReads.WrittenReads: trees do not draw random numbers, and user functions stand in them with their bodies, so that none calls itself; written trees have the blanks that are needed and no others.
- BASIC statements, printing, input and files.
- Drivers, interrupt stubs, the timer, the framebuffer and the memory map passed by the boot loader.
