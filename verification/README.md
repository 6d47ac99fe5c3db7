# Verified models of the kernel's data structures and protocols

This project models the self-contained algorithms of an ARM kernel and of the
libraries shipped with it, and proves what they promise.  Code that updates
state in place is modelled by classes and methods over the same fields and
links, proved against specifications on sequences, sets and maps; protocols
are transition systems over any number of tasks.  Every error path the source
has is there: descriptors that are not open, a full device, a refused
`sys_brk`, a message that does not match, a frame that is cut off.

`dafny verify dfyconfig.toml` checks everything.

| part | files | main results |
|---|---|---|
| block file system | BlockCache, FsLayout, FsCore, BlockRuns, FsInode, FsFile, FsBlocks, FsReadWrite, FileSystem, FsStart | the cache is a flat block array, bitmap and counter are the set of free blocks, `fs_write` is a splice on one file's bytes that takes just the blocks it misses, `fs_read` a slice |
| red-black trees | RbTree, RbErase, Epoll, FairScheduler | insert and erase with their fix-ups on linked nodes, the interest set as a map, the run queue as a stable sort |
| synchronisation | SyncSpec, Tasks, WaitQueue, Mutex, Condition, Semaphore, SyncRuns, SyncSystem, RwLock, RwCalls | first come first served grants, conservation of counts, one queue per blocked task, exclusion and no lost wakeup over every run, what each call leaves |
| heap | Malloc | the block list tiles the heap, live payloads are disjoint |
| skip list | SkipList | a finite map for every choice of levels |
| MLFQ scheduler | Mlfq | each task in exactly one queue; demotion, boost, selection |
| rings | Ring, MsgQueue, Pipe, PipeRuns, Waiters, PipeWakeups, MsgWakeups | typed removal from a ring, conservation of bytes over every interleaving, when no wakeup is lost |
| codecs | Common, Widths, Casts, Bytes, WsFrame, Mqtt, MqttConnect, Utf8, CJson, CJsonCounts | encoders and decoders undo each other |
| page replacement | Clock | termination and victim of the clock |

## What the proofs found

Where the code differs from what its comments or callers may expect, the code
was followed and the exact condition proved.

* The cache evicts its newest block: `cache_head->prev` is the block added
  last, though the comment calls it the oldest (`BlockCache.Cache.Evict`).
  Coherence does not depend on the choice.
* `fs_read` clips the count at the end of the file if and only if position
  plus count does not wrap 32 bits (`FileSystem.ClipIff`); `Files.Read` asks
  for that.
* `free_block` keeps the counter right if and only if the number is a block of
  some group, was in use and is not block 0 (`FsCore.GaveBack`).
* The plain mutex keeps order if and only if no owner locks it again; an owner
  that does waits for itself for ever (`SyncRuns.MutexRunsOrderly`,
  `SyncRuns.SelfWaitIsForever`).
* `recursive_count` is always the number of unmatched locks if and only if
  nobody ever holds 2^32 of them (`SyncRuns.RecursiveRuns`), and the
  semaphore's count is what was put in and not granted if and only if that
  never exceeds 2^31 - 1 (`SyncRuns.SemaphoreConserves`).
* `readers_count` is the number of read locks held if and only if no task ever
  gave back one it did not hold (`RwLock.Exclusion`); one that does lets a
  writer in beside a reader (`RwCalls.UnlockedByAnother`).
* A pipe loses wakeups unless there is at most one reader and one writer, or
  one side is missing, or it holds one byte (`PipeWakeups.NeverLostIff`); a
  message queue loses them unless there is at most one receiver or every
  receiver takes every type sent (`MsgWakeups.NeverLostIff`).
* A `malloc` result holds the bytes asked for if and only if the request is at
  most 0xFFFFFFE8; above that the rounding wraps and a request can be granted
  with next to no memory behind it (`Malloc.Heap.Malloc`, `Malloc.RequestWraps`).
* The server's frame loop ends with the messages delivered if and only if it
  reaches no header whose position plus length wraps 64 bits
  (`WsFrame.DeliversSplit`); on the ten bytes of `WsFrame.Endless` it never
  ends.
* A CONNECT packet can be read back by the rules of section 3.1 if and only if
  every string is shorter than 65536 bytes and the configuration keeps those
  rules, which the builder does not check (`MqttConnect.ConnectRoundTrip`,
  `MqttConnect.Refused`).
* `parse_string` reads past the text if a backslash is its last byte or an
  escape is cut off, and not because of digits that are none (`CJson.CutOff`).
  It can write more than it counted, since a quote or a backslash among the
  four bytes behind a `\u` sets its passes apart (`CJsonCounts.QuoteInDigits`);
  it never does where those bytes are harmless, and the bytes that are
  harmless are exactly known (`CJsonCounts.HarmlessFits`,
  `CJsonCounts.HarmlessIff`).
* When `pra_alloc_page` finds a victim but gets no new page, the victim's page
  is unmapped and still on record (`Clock.FrameTable.AllocPage`).

## Conventions

Mutable structures carry a ghost field with the abstract value (the in-order
tree, the ring, the chain) and a `Valid()` that ties it to the links.  Calls
that may fail for reasons outside the model (memory, the device's clock, what
an uninitialised buffer holds, the level a random generator draws) take the
outcome as a parameter, so the results hold for every outcome.  Interrupt
disabled regions are single atomic steps.  Where one C function contains the
same few lines twice, as `merge_blocks` does, they are one method called
twice.

## Model

| member | source | states |
|---|---|---|
| BlockCache.Cache.constructor | src/fs_core.c:14-26 | over any device of at most 2^20 blocks the cache starts empty and every reader sees the device |
| BlockCache.AddressesDistinct | src/fs_core.c:67 | block_no * BLOCK_SIZE, in 32 bits, gives every block an address of its own if and only if there are at most 2^20 blocks |
| BlockCache.Cache.GetBlock | src/fs_core.c:60-64 | the ring search returns the one cached copy of a block, or null exactly when the block is not cached |
| BlockCache.Cache.ReadBlock | src/fs_core.c:58-108 | returns what a reader of that block should see, changes no block's view, keeps ring links, block numbers unique, cache_size the ring length; a miss leaves at most 1024 blocks cached |
| BlockCache.Cache.Miss | src/fs_core.c:66-107 | the miss path: the device copy joins the ring, and a ring grown too long loses one block again |
| BlockCache.Cache.Evict | src/fs_core.c:94-105 | a ring that is too long loses exactly its newest block, the one at head->prev, which reaches the device first if dirty; no view changes |
| BlockCache.Cache.WriteBack | src/fs_core.c:96-99 | writing a dirty block out makes device and view agree at it and nowhere else |
| BlockCache.Cache.Drop | src/fs_core.c:100-104 | unlinking a clean block keeps the ring circular in both directions and every view |
| BlockCache.Cache.WriteBlock | src/fs_core.c:111-143 | the view changes at the written block only; the device is not touched |
| BlockCache.Cache.Link | src/fs_core.c:79-91 | a new cache block joins the circular list, both directions stay one cycle |
| BlockCache.Evicted | src/fs_core.c:94-105 | dropping one block whose data the device has changes no view of any block |
| BlockCache.Added | src/fs_core.c:72-91 | caching a block as the device has it keeps the views and the uniqueness of block numbers |
| FsLayout.WordsOfBytes | src/fs_core.c:196-238 | reading back the 32-bit words a structure was stored as gives the structure (little endian) |
| FsLayout.WordAtBytes | src/fs_file.c:108-112 | word k of a stored pointer block is the k-th pointer |
| FsLayout.BitOfFromBits | src/fs_core.c:160-163 | testing bit k of the byte with given bits is the k-th of them |
| FsLayout.BitsIndependent | src/fs_core.c:160-188 | setting or clearing one bit of a byte changes that bit and no other |
| FsCore.SplitBlock | src/fs_core.c:181-182 | every block number splits into a group and a bit inside it |
| FsCore.JoinBlock | src/fs_core.c:169 | group and bit make a block number inside the device, and splitting it gives them back |
| FsCore.SameBlock | src/fs_core.c:169-182 | a block has that group and bit if and only if it is the number they make |
| FsCore.FlippedBlocks | src/fs_core.c:161-189 | flipping one bitmap bit adds exactly its block to the free blocks or removes exactly it |
| FsCore.LowestFree | src/fs_core.c:157-169 | the first clear bit of the first group with one is the lowest free block |
| FsCore.SomethingFree | src/fs_core.c:149-151 | a positive counter means some bitmap has a clear bit |
| FsCore.Took | src/fs_core.c:163-169 | setting the bit and decrementing the counter keeps counter = number of free blocks |
| FsCore.GaveBack | src/fs_core.c:178-193 | free_block keeps counter = number of free blocks if and only if the number is a block of some group, was in use and is not block 0 |
| FsCore.FreeAtMost | src/fs_core.c:191 | the counter never exceeds the number of blocks, so incrementing it cannot wrap |
| FsCore.SbReadBack | src/fs_core.c:167 | block 0, once written, has the fields of the superblock at the offsets superblock_t gives them |
| FsCore.Mount.ScanGroup | src/fs_core.c:160-171 | the inner loop finds the first clear bit of the bitmap block, or none |
| FsCore.Mount.FindClear | src/fs_core.c:157-172 | both loops together find the lowest free block, and find one whenever the counter is positive |
| FsCore.Mount.Alloc | src/fs_core.c:146-175 | 0 exactly when the counter is 0, and then nothing changes; otherwise the lowest free block, which leaves the free set; counter and superblock block follow, data blocks keep their contents |
| FsCore.Mount.Free | src/fs_core.c:178-193 | the block returns to the free set and the counter follows, and no other block changes hands; a number past the last group frees nothing and leaves the counter one too high |
| BlockRuns.NeverTwice | src/fs_core.c:146-193 | over every sequence of disks that alloc_block, free_block of used blocks and writes elsewhere lead through, no block is handed out twice without a free_block of it in between |
| BlockRuns.CountConserved | src/fs_core.c:146-193 | over every such sequence the counter is what it was at first, less the blocks handed out, plus those given back |
| BlockRuns.NextIsThen | src/fs_core.c:146-193 | what the contracts of alloc_block and free_block say of the disk is the step of the free set the runs are about |
| BlockRuns.TraceFree | src/fs_core.c:146-193 | so in every such sequence of disks the free set is the one the calls lead to |
| BlockRuns.History.Alloc | src/fs_core.c:146-175 | a call of alloc_block extends such a sequence by the block it handed out, or by a failure |
| BlockRuns.History.Release | src/fs_core.c:178-193 | a free_block of a block in use extends it by that block given back |
| FsInode.InodesApart | src/fs_core.c:196-238 | two inodes never overlap in the inode table |
| FsInode.InodeInBlock | src/fs_core.c:200-206 | an inode lies inside one block of the table |
| FsInode.InodePlace | src/fs_core.c:199-205 | in bytes, inode g * inodes_per_group + x + 1 starts x inode sizes into the table of group g |
| FsInode.InodeAfterPut | src/fs_core.c:216-238 | after write_inode a read of that inode gives what was written and a read of any other gives what it gave before |
| FsCore.SameBitmaps | src/fs_core.c:216-238 | a write that changes no bitmap block leaves the free blocks and the counter as they are |
| FsInode.ReadInode | src/fs_core.c:196-213 | returns the inode stored in the table, changing no view |
| FsInode.WriteInode | src/fs_core.c:216-238 | replaces that inode in the table block and nothing else |
| FsFile.InvAfterChange | src/fs_file.c:148-242 | when one file changes, all others keep their bytes, pointers stay distinct and allocated, and free blocks stay zero |
| FsFile.InvAfterAlloc | src/fs_core.c:146-175 | allocating changes no file; the block handed out is zero and nobody points to it |
| FsFile.InvAfterPoint | src/fs_file.c:180-208 | pointing a slot of one file to a spare zero block keeps every file's bytes and the invariant |
| FsFile.PointDirect | src/fs_file.c:180-187 | storing the block number in a direct slot changes that slot only |
| FsFile.PointIndirect | src/fs_file.c:190-195 | a fresh indirect block gives all 1024 of its slots as empty |
| FsFile.PointEntry | src/fs_file.c:197-206 | storing a block number in the indirect block changes that slot only |
| FsFile.ChunkContents | src/fs_file.c:213-234 | writing a chunk inside one block and growing the size overlays exactly those bytes on the file |
| FsFile.InvAfterChunk | src/fs_file.c:213-234 | the chunk write keeps the invariant and every other file's bytes |
| FsFile.ChunkSeparate | src/fs_file.c:213-234 | no other file points to the block written |
| FsReadWrite.AllocFor | src/fs_file.c:180-204 | a block allocated while writing one file is spare: zero, a data block, and pointed to by no file |
| FsReadWrite.MapDirect | src/fs_file.c:180-187 | a direct slot gets a block if it had none; the file's bytes stay; no block means the counter is 0 |
| FsReadWrite.MapIndirect | src/fs_file.c:188-208 | the same through the indirect block, allocating that first if it is missing |
| FsReadWrite.MapBlock | src/fs_file.c:178-211 | whichever range the block index is in, the slot is mapped, every file's bytes are unchanged, or the device is full |
| FsReadWrite.WriteChunk | src/fs_file.c:213-234 | the block merged from old bytes and buffer bytes is written; where the old block is not read first, the chunk covers all of it |
| FsReadWrite.WriteTurn | src/fs_file.c:173-235 | one turn overlays the next chunk at the position, or stops for lack of space having changed no byte; it fills no slot but the one the position lies in and, behind the direct ones, the indirect block's |
| FsReadWrite.WriteLoop | src/fs_file.c:173-235 | the loop leaves the first `written` buffer bytes overlaid at the start position; it fills slots those bytes need, and the indirect block's, and no others; the blocks that stop being free are the ones these slots point to and the lowest there were; it stops short only at an empty slot with no block free |
| FsBlocks.FillsOne | src/fs_file.c:180-204 | taking a block and putting its number in an empty slot takes this block from the free ones and no other, and leaves all other pointers, the rest of the inode and every data block of nobody's as they were |
| FsBlocks.FillsTwice | src/fs_file.c:173-235 | and so do any two such steps together |
| FsBlocks.OneForEach | src/fs_file.c:180-204 | one free block goes for every slot filled |
| FsBlocks.AllDownIff | src/fs_file.c:173-235 | a write gets all its bytes down if and only if the pointers it needs and misses, the indirect block's among them, are no more than the free blocks; the counter goes down by the slots filled, which are then exactly the missing ones |
| FsBlocks.FromNothing | src/fs_file.c:173-235 | a file that had no block lies afterwards on the lowest ones of those that were free |
| FsReadWrite.KeepsTwice | src/fs_file.c:173-235 | what each step keeps for the other files composes over any number of steps |
| FsReadWrite.InvAfterPut | src/fs_file.c:237-239 | storing the inode with its new time changes no file's bytes |
| FsReadWrite.DiskTabAfterPut | src/fs_file.c:237-239 | the inode table on disk afterwards is the old one with this inode replaced |
| FileSystem.ClipIff | src/fs_file.c:91-95 | fs_read clips the count to the end of the file if and only if position + count does not wrap 32 bits |
| FileSystem.Lookup | src/fs_file.c:106-113 | the pointer lookup of fs_read returns the file's slot, direct or through the indirect block |
| FileSystem.ReadTurn | src/fs_file.c:99-142 | one turn copies a non-empty run of the file's bytes at the position |
| FileSystem.ReadLoop | src/fs_file.c:97-144 | the loop copies exactly the file's bytes [pos, pos + count) and touches no other byte of the buffer |
| FileSystem.Files.Read | src/fs_file.c:64-145 | -1 on a descriptor that is not open; else exactly the slice of the file at the position, the position advanced by it, no view changed |
| FileSystem.Files.Write | src/fs_file.c:148-243 | -1 on a descriptor that is not open; else the first r buffer bytes are spliced in at the position and every other file is as before; no pointer goes, new ones appear only in slots these bytes need, and the blocks no longer free are those the file now lies on; r is the whole count if and only if the missing pointers are no more than the free blocks; of the inode only size, pointers and the time change; the invariant holds again |
| FileSystem.WholeIff | src/fs_file.c:173-242 | so it is for the inodes as the disk has them afterwards |
| FileSystem.WrittenReadsBack | src/fs_file.c:64-243 | what a write put there is what a read at the same place returns; the bytes around it are the old ones |
| FileSystem.DescsStay | src/fs_file.c:228-235 | all open descriptors are still within their files |
| FsStart.Formatted | src/fs_file.c:64-243 | a freshly formatted device satisfies the invariant all of this starts from, with an empty file |
| FsStart.FillsDevice | src/fs_file.c:148-242 | on that device 20480 bytes written to the empty file all get down, on blocks 3 to 7, and no block is free then |
| FsStart.FirstWrite | src/fs_file.c:148-242 | wherever blocks 3 to 7 are the free ones, so it is; and a one-byte write takes block 3 alone |
| RbTree.RotateLeft | src/rbtree.c:23-44 | on linked nodes the rotation yields the rotated tree in the same place, all parent links consistent, nothing else touched |
| RbTree.RotateRight | src/rbtree.c:46-67 | the mirror image |
| RbTree.RotLOrder | src/rbtree.c:23-44 | a left rotation keeps the in-order sequence |
| RbTree.RotROrder | src/rbtree.c:46-67 | a right rotation keeps the in-order sequence |
| RbTree.PlugRedBlack | src/rbtree.c:69-186 | the whole tree is a red-black tree with a black root if and only if the subtree in focus is one, has the black height its surroundings ask for, and the surroundings obey the rules (equal black heights, no red child of a red node) |
| RbTree.PushRedKeeps | src/rbtree.c:78-84 | recolouring with a red uncle moves the red-red conflict two levels up and keeps black heights |
| RbTree.LeanKeeps | src/rbtree.c:86-91 | the inner rotation turns an inner conflict into an outer one |
| RbTree.FixLeftKeeps | src/rbtree.c:86-95 | the outer rotation and recolouring end the conflict on the left side |
| RbTree.FixRightKeeps | src/rbtree.c:106-115 | and on the right side |
| RbTree.InsertStep | src/rbtree.c:73-117 | one turn of the loop either ends the conflict or moves it up, keeping links and order |
| RbTree.InsertColor | src/rbtree.c:69-120 | started at a red leaf just linked, it terminates with a red-black tree, black root, consistent parent links and the same in-order sequence |
| RbTree.RaiseSiblingLeft | src/rbtree.c:129-135 | a red sibling is rotated up: same order, the shortfall stays where it was, the sibling is black |
| RbTree.RaisedLeftKeeps | src/rbtree.c:129-135 | and black heights are as the shortfall requires |
| RbTree.LendLeft | src/rbtree.c:142-153 | the final rotation and recolouring make up for the missing black |
| RbTree.BorrowedLeftKeeps | src/rbtree.c:142-153 | and the result has the black height that was asked for |
| RbTree.NephewOutLeftKeeps | src/rbtree.c:142-147 | turning a red inner nephew outward keeps black heights |
| RbTree.Sink | src/rbtree.c:136-140 | with two black nephews the shortfall moves to the parent |
| RbTree.SunkKeeps | src/rbtree.c:136-140 | and the subtree below is balanced |
| RbTree.RaiseSiblingRight | src/rbtree.c:157-162 | mirror image of the red-sibling case |
| RbTree.LendRight | src/rbtree.c:169-180 | mirror image of the final case |
| RbTree.EraseStepLeft | src/rbtree.c:128-154 | one turn with the short side on the left ends the shortfall or moves it up |
| RbTree.EraseStepRight | src/rbtree.c:155-182 | one turn with the short side on the right likewise |
| RbTree.EraseColor | src/rbtree.c:122-186 | started on a tree whose subtree at node is one black short, it terminates with a red-black tree, parent links consistent and the in-order sequence unchanged |
| RbTree.LinkNode | src/epoll.c:90-92 | linking a red leaf at an empty slot puts the node at that place of the in-order sequence |
| RbTree.SlotOrder | src/epoll.c:75-92 | the slot an ordered descent stops at is the one where the key belongs |
| RbTree.Insert | src/epoll.c:75-93 | link and fix-up keep a red-black tree ordered, with exactly the new node added at its place |
| RbErase.Erase | src/epoll.c:139 | unlinking a node of a red-black tree and mending it with rb_erase_color leaves a red-black tree with a black root, consistent links, exactly that node gone and the others in the same order |
| RbErase.EraseSingle | src/rbtree.c:122-186 | a node with at most one child gives its place to the child; the short side, if the node was black, is mended |
| RbErase.EraseDouble | src/rbtree.c:122-186 | a node with two children gives its place, links and colour to its successor, whose own place closes up; the hole may lie directly below the node or deeper |
| RbErase.Successor | src/epoll.c:139 | the walk to the leftmost node of the right subtree ends at the node that comes next in order, which has no left child |
| RbErase.MoveUp | src/epoll.c:139 | putting the successor in the place of the node keeps all links consistent, seen from the hole it left |
| RbErase.RestShort | src/rbtree.c:122-186 | unlinking a black node with at most one child leaves exactly the state rb_erase_color starts from; a red one had no child and leaves a balanced tree |
| RbErase.DoubleColors | src/rbtree.c:122-186 | the same at the hole of the successor after it has moved up with the colour of the node it replaces |
| RbErase.PromotedLine | src/epoll.c:139 | with the successor moved up the in-order sequence is the old one without the node |
| RbErase.PromotedNodes | src/epoll.c:139 | and the set of nodes is the old one without the node |
| RbErase.Locate | src/epoll.c:139 | every node of the tree is the focus of some balanced view of it |
| RbTree.HeightBound | src/rbtree.c:69-120 | the number of nodes is at least 2^black height - 1 and the height at most twice the black height |
| RbTree.Logarithmic | src/rbtree.c:69-120 | hence 2^height <= (n + 1)^2, i.e. height at most 2 log2(n + 1) |
| Epoll.EventPoll.Find | src/epoll.c:58-73 | the search returns the item of that descriptor, or null exactly when it is not in the interest set |
| Epoll.EventPoll.CtlAdd | src/epoll.c:109-124 | ADD: EEXIST if present, ENOMEM if no item can be had, otherwise the map gains exactly this binding; the tree stays an ordered red-black tree |
| Epoll.EventPoll.CtlMod | src/epoll.c:126-132 | MOD: ENOENT if absent, otherwise exactly this binding changes |
| Epoll.EventPoll.CtlDel | src/epoll.c:134-141 | DEL: ENOENT if absent, otherwise exactly this binding and the node that held it are gone |
| Epoll.EventPoll.Ctl | src/epoll.c:102-154 | behind the test of the descriptor: ADD, MOD, DEL and unknown operations on the map from descriptor to event, with the error of each |
| Epoll.EpollCtl | src/epoll.c:95-154 | EBADF exactly when the instance is not open; otherwise the operation on its map |
| Epoll.FindAvailable | src/epoll.c:13-24 | the lowest free descriptor, -1 exactly when there is none |
| Epoll.EpollCreate | src/epoll.c:26-56 | EINVAL, EMFILE, ENOMEM in this order, and then nothing changes; otherwise the lowest free descriptor names a new instance that watches nothing |
| Epoll.EpollClose | src/epoll.c:208-231 | the descriptor is free again and every item of the instance was freed once; a descriptor that is not open changes nothing |
| Epoll.EventPoll.Close | src/epoll.c:218-224 | the drain loop terminates with an empty tree, and every item was freed exactly once |
| Epoll.Remove | src/epoll.c:134-141 | erasing a node keeps the tree in strict key order and takes its descriptor, and no other, out of the map |
| Epoll.OneFewer | src/epoll.c:134-141 | a map described by a set of items stays described when one item and its descriptor go |
| Epoll.StillIncreasing | src/epoll.c:134-141 | keys stay strictly increasing when a node goes |
| Epoll.RootHeld | src/epoll.c:220 | the root link is null exactly when the map is empty, which is what the drain loop tests |
| Epoll.Search | src/epoll.c:58-73 | the pointer walk finds the key in the in-order sequence if it is there |
| Epoll.SearchOver | src/epoll.c:58-73 | a walk that falls off the tree has passed every node, so the key is nowhere |
| Epoll.InsertItem | src/epoll.c:75-93 | the descent and link keep the tree ordered by descriptor and add one node |
| Epoll.StaysIncreasing | src/epoll.c:75-93 | a new key put at its slot keeps the keys strictly increasing |
| FairScheduler.FairQueue.Enqueue | src/scheduler_fair.c:190-215 | the in-order sequence becomes the old one with the entity put behind every entity of no larger key |
| FairScheduler.FairQueue.PickNext | src/scheduler_fair.c:230-239 | the task of the leftmost entity: the one that entered first among those of minimal key, null exactly when empty |
| FairScheduler.FairQueue.MinVruntime | src/scheduler_fair.c:178-187 | the smallest key in the queue, 0 when empty |
| FairScheduler.QueueIsStableSort | src/scheduler_fair.c:190-215 | over any sequence of enqueues the queue is the stable sort of what was enqueued |
| FairScheduler.HeadIsFirstMinimum | src/scheduler_fair.c:230-239 | so its head is the earliest entity with the minimal key |
| FairScheduler.InsertedIsPlaced | src/scheduler_fair.c:190-215 | the tree descent (ties to the right) puts the entity where the stable order wants it |
| WaitQueue.Add | src/mutex.c:21-33 | the queue gains the task at its end, however long the chain is |
| WaitQueue.Remove | src/mutex.c:36-43 | the first task leaves with its link cleared; null exactly on an empty queue |
| WaitQueue.Sleep | src/mutex.c:60-66 | the caller is blocked and last in the queue |
| WaitQueue.Wake | src/mutex.c:101-106 | the longest waiter becomes ready and leaves the queue |
| Mutexes.Mutex.Lock | src/mutex.c:46-70 | a free mutex becomes the caller's; otherwise the caller is blocked at the end of the queue |
| Mutexes.Mutex.TryLock | src/mutex.c:73-87 | takes a free mutex, otherwise changes nothing |
| Mutexes.Mutex.Unlock | src/mutex.c:90-115 | only the owner releases; the mutex goes to the longest waiter, who becomes ready, or becomes free |
| Mutexes.Mutex.RecursiveLock | src/mutex.c:123-152 | the owner counts once more (mod 2^32), others as for the plain lock; the caller is blocked exactly when it is queued |
| Mutexes.Mutex.RecursiveUnlock | src/mutex.c:155-188 | the owner counts down; the release that reaches 0 hands over with count 1 to the longest waiter, who becomes ready |
| SyncRuns.StepOrderly | src/mutex.c:46-115 | a lock, trylock or unlock keeps order (unlocked means no waiters, waiters distinct and none of them the owner, grants in the order of asking) if and only if it is no lock by the owner, which makes the owner wait for itself |
| SyncRuns.UnlockGives | src/mutex.c:90-115 | the owner's unlock hands the mutex to the longest waiter or, if there is none, frees it |
| SyncRuns.MutexRunsOrderly | src/mutex.c:46-115 | over every run of any number of tasks this order holds, so grants are first come, first served, if and only if no owner ever locked its mutex again |
| SyncRuns.SelfWaitIsForever | src/mutex.c:46-115 | once an owner waits for itself, over every sequence of calls it stays the owner and in the queue, nobody is granted the mutex and nobody leaves the queue |
| SyncRuns.RecStepCounted | src/mutex.c:123-188 | a call keeps recursive_count equal to the owner's unmatched locks if and only if it is no lock at the counter's largest value |
| SyncRuns.RecStepOrderly | src/mutex.c:123-188 | a call on a recursive mutex keeps waiters distinct, none of them the owner, and grants in the order of asking |
| SyncRuns.RecursiveRuns | src/mutex.c:123-188 | over every run of any number of tasks grants are first come, first served, and recursive_count equals the owner's unmatched locks at every moment if and only if no task ever holds 2^32 of them |
| SyncRuns.OnlyLastUnlockReleases | src/mutex.c:155-188 | an unlock lets the mutex go exactly when it matches the owner's first lock |
| Semaphores.Semaphore.Wait | src/semaphore.c:15-36 | a positive count is decremented, otherwise the caller is blocked last in the queue |
| Semaphores.Semaphore.TryWait | src/semaphore.c:39-52 | decrements a positive count, otherwise changes nothing |
| Semaphores.Semaphore.Post | src/semaphore.c:55-70 | wakes the longest waiter, or increments the 32-bit counter when there is none |
| SyncRuns.SemaphoreConserves | src/semaphore.c:15-70 | over every run a positive count means an empty queue, waits are granted first come, first served, and count = initial + posts - granted waits if and only if that never exceeded 2^31 - 1; otherwise it is behind by a multiple of 2^32 |
| SyncSystem.RunsKeepOneQueue | src/mutex.c:46-188 | over every run of any number of tasks on any number of mutexes, semaphores and condition variables: a task is blocked if and only if it is in some queue, and then it is in exactly one of all, in one place |
| SyncSystem.MutexDoes | src/mutex.c:46-188 | what each mutex call does to the mutex and to who is blocked, field by field; every other object stays |
| SyncSystem.OtherDoes | src/semaphore.c:15-70 | and each semaphore and condition call |
| SyncSystem.HistoryDoes | src/condition.c:15-36 | who is between the two halves of condition_wait, and who is back from it |
| SyncSystem.SleepKeeps | src/mutex.c:60-66 | putting the running task to sleep in one queue keeps this |
| SyncSystem.WakeKeeps | src/mutex.c:101-106 | and so does waking the first of a queue |
| SyncSystem.CondKeeps | src/condition.c:15-98 | condition_wait, which moves its caller and may wake an owner of the mutex, signal and broadcast keep this |
| SyncSystem.WaitReturnsOwner | src/condition.c:15-36 | over every run, a task that runs again after the mutex_lock in condition_wait owns that mutex until it gives it up itself |
| SyncSystem.ReturningStep | src/condition.c:15-36 | every call of any task keeps: who has called that mutex_lock owns the mutex or waits for it |
| Conditions.Condition.Wait | src/condition.c:15-31 | in its first region the mutex is released and the caller is last in the condition's queue |
| Conditions.Condition.Signal | src/condition.c:69-82 | the longest waiter becomes ready; nothing happens on an empty queue |
| Conditions.Condition.Broadcast | src/condition.c:85-98 | every waiter becomes ready and the queue is empty |
| RwLock.MutexInvStep | src/rwlock.c:19-117 | in every step at most one task is inside the internal mutex's section |
| RwLock.HolderInvStep | src/rwlock.c:19-117 | every step keeps readers_count, while it has not wrapped, = read locks held less those given back by tasks that held none, and writer_owner = the one task that holds the lock for writing |
| RwLock.ReadersServedStep | src/rwlock.c:19-117 | every step keeps: waiting readers mean an active writer or a task about to broadcast |
| RwLock.WritersServedStep | src/rwlock.c:19-117 | every step keeps: waiting writers mean a holder, a task about to signal, or a signalled writer |
| RwLock.RunsKeepInv | src/rwlock.c:19-117 | all of it over every run of any number of tasks that make any calls, nested and unmatched ones included; what the calls themselves do is the matter of RwCalls.CallAlone |
| RwLock.Exclusion | src/rwlock.c:19-117 | over every run at most one task holds the lock for writing; readers_count, a signed 32-bit integer that has not wrapped, is the number of read locks held if and only if no task ever gave back one it did not hold, and then nobody holds one while somebody writes |
| RwLock.WrapsIff | src/rwlock.c:19-63 | over every run readers_count wraps exactly where the number it stands for leaves the range of 32 bits |
| RwCalls.UnlockedByAnother | src/rwlock.c:53-63 | with one read unlock by a task that holds nothing, a run leads to a writer beside a reader |
| RwLock.NoLostWakeup | src/rwlock.c:19-117 | with no task inside a section, waiting readers imply a writer holds the lock, and waiting writers imply a holder or a signalled writer that has not yet retested, or a counter that has wrapped |
| RwLock.NeverStuck | src/rwlock.c:19-117 | while any task waits, some task that does not wait is in a call or some task holds the lock, or the counter has wrapped |
| RwCalls.CallAlone | src/rwlock.c:19-117 | what every call leaves, field by field, while nobody is inside: read_lock and write_lock get the lock or wait last in its queue, and go on from there once woken; a trylock gets it exactly when its test allows and else changes nothing; a read unlock wakes the first waiting writer when the counter comes to 0; a write unlock by the owner leaves nobody writing, wakes the first waiting writer and all readers, one by another task changes nothing |
| RwCalls.LeadsToOne | src/rwlock.c:19-117 | and no call can leave anything else |
| RwCalls.TryBusy | src/rwlock.c:35-99 | a trylock while somebody is inside changes nothing |
| RwCalls.CallReached | src/rwlock.c:19-117 | in every state of every run a call nobody interferes with does this, and a run leads on from there |
| RwCalls.WriterLetsGo | src/rwlock.c:102-116 | from every state of every run, whatever others are in the middle of: if the writer calls its unlock there are steps after which nobody writes |
| RwCalls.HeldIsGranted | src/rwlock.c:19-117 | over every run, whenever nobody is inside, the read locks held are the read calls that came back with one less those given back, and the same for writing |
| RwCalls.AddsStep | src/rwlock.c:19-117 | every step keeps this, counting what a task inside has done and not yet come back with |
| Malloc.RequestFits | src/malloc.c:4-5 | rounding a request and adding the header stays in 32 bits if and only if the request is at most 0xFFFFFFE8 |
| Malloc.Align32 | src/malloc.c:4 | rounds up to the next multiple of the word size, or to 0 past the last one below 2^32 |
| Malloc.RequestWraps | src/malloc.c:47-52 | beyond that the sum asked of sys_brk wraps to no more than one header |
| Malloc.Ordered | src/malloc.c:18-122 | tiling blocks lie in address order |
| Malloc.LiveApart | src/malloc.c:91-122 | two live payloads never overlap, no payload meets any header, all lie inside the heap |
| Malloc.Aligned | src/malloc.c:91-110 | every payload address is a multiple of the word size |
| Malloc.AllFreed | src/malloc.c:70-122 | once everything has been freed the heap is one free block |
| Malloc.SplitTiles | src/malloc.c:29-45 | splitting keeps the tiling of the heap |
| Malloc.SplitReflects | src/malloc.c:29-45 | after the split the headers in memory, with next, prev and heap_end, spell the new block list |
| Malloc.TakenSizes | src/malloc.c:29-45 | the block taken keeps its place and is cut to the size asked for if and only if 24 bytes or more are over, which then make a free block behind it; no other block changes |
| Malloc.JoinTiles | src/malloc.c:70-89 | merging two neighbours keeps the tiling |
| Malloc.JoinReflects | src/malloc.c:70-89 | after a merge the headers in memory spell the shorter list |
| Malloc.TakeNoAdjacent | src/malloc.c:98-101 | taking and splitting a free block leaves no two neighbours free |
| Malloc.GiveNoAdjacent | src/malloc.c:112-122 | neither does freeing with the two-sided merge |
| Malloc.GiveLive | src/malloc.c:112-122 | a free removes exactly that block from the live ones |
| Malloc.ExtendReflects | src/malloc.c:47-68 | the block put at the break is linked behind the last one |
| Malloc.Heap.FindFreeBlock | src/malloc.c:18-27 | the lowest free block large enough, null exactly when there is none |
| Malloc.Heap.SplitBlock | src/malloc.c:29-45 | the remainder becomes a free block exactly when it holds a header and a word |
| Malloc.Heap.ExtendHeap | src/malloc.c:47-68 | null exactly when sys_brk refuses, and then nothing changes; otherwise a used block from the old break |
| Malloc.Heap.MergeBlocks | src/malloc.c:70-89 | the block is joined with a free successor and then with a free predecessor |
| Malloc.Heap.Malloc | src/malloc.c:91-110 | null exactly for size 0 or when nothing fits and sys_brk refuses; otherwise first fit, one new live payload of at least the size, tiling, links and no two free neighbours kept; the bytes promised lie in the heap if and only if the request is at most 0xFFFFFFE8 |
| Malloc.Heap.Free | src/malloc.c:112-122 | null changes nothing; otherwise exactly that payload stops being live and all invariants hold again |
| SkipList.Node.constructor | src/index.c:28-49 | a node starts with its key, value and level and no links |
| SkipList.SkipList.constructor | src/index.c:61-77 | a new list maps nothing |
| SkipList.NextNew | src/index.c:148-152 | on every chain the new node leads where the last node before it led |
| SkipList.NextAfter | src/index.c:148-152 | every old node leads where it led, or to the new node if that comes first |
| SkipList.ChainLinked | src/index.c:148-152 | one round of linking makes chain i exactly the nodes of the longer list above level i, in order |
| SkipList.ChainSkips | src/index.c:148-152 | a chain above the new node's level needs no change |
| SkipList.LinkAt | src/index.c:148-152 | one round links one chain and leaves every other chain alone |
| SkipList.Splice | src/index.c:148-152 | the loop links the node into all chains below its level |
| SkipList.AtRank | src/index.c:93-96 | the node after the last one below the key on chain 0 is the first with a key not below it |
| SkipList.LookupInserted | src/index.c:105-160 | a node put at its rank changes the map at its key and nowhere else, and the keys stay sorted |
| SkipList.LookupMissing | src/index.c:80-102 | a key is not mapped if and only if no node's key compares equal to it |
| SkipList.SkipList.Find | src/index.c:80-102 | for any total-order comparator and whatever levels were drawn: the node of the key, null exactly when it is not mapped |
| SkipList.SkipList.Locate | src/index.c:105-125 | update[i] is the last node below the key on chain i, for every level in use |
| SkipList.SkipList.Raise | src/index.c:136-142 | levels above those in use start at the header |
| SkipList.SkipList.Insert | src/index.c:105-160 | for every level drawn: the key is bound to the value and no other binding changes; size counts the nodes; ERR_IO exactly when a node is needed and cannot be had, and then no binding changes |
| Mlfq.Append | src/scheduler_mlfq.c:29-45 | head, tail and count describe the old chain with the task at its end |
| Mlfq.TakeHead | src/scheduler_mlfq.c:48-67 | the head leaves, the rest keeps its order |
| Mlfq.Unlink | src/scheduler_mlfq.c:115-131 | removal from anywhere in the chain keeps the order of the rest and head, tail and count |
| Mlfq.Scheduler.constructor | src/scheduler_mlfq.c:19-26 | eight empty queues, no task anywhere |
| Mlfq.QuantumDoubles | src/scheduler_mlfq.c:23 | the first queue has the base quantum, every other twice that of the one before, in 32 bits |
| Mlfq.Scheduler.Enqueue | src/scheduler_mlfq.c:29-45 | one queue gains the task; each task is still in exactly the queue it names |
| Mlfq.Scheduler.Dequeue | src/scheduler_mlfq.c:48-67 | the first task of a queue leaves, null exactly when it is empty |
| Mlfq.Scheduler.InitTask | src/scheduler_mlfq.c:70-82 | a new task is last in queue 0 with a full slice; without memory for its parameters nothing changes |
| Mlfq.Scheduler.Boost | src/scheduler_mlfq.c:85-98 | queue 0 becomes the concatenation of old queues 0 to 7 and the others are empty; no task is lost and all name queue 0; those that moved have a full slice, those of queue 0 keep theirs |
| Mlfq.Scheduler.Drain | src/scheduler_mlfq.c:87-95 | one queue is appended to queue 0 in order |
| Mlfq.FlattenAppend | src/scheduler_mlfq.c:85-98 | concatenating one more queue extends the concatenation |
| Mlfq.Scheduler.UpdateQueue | src/scheduler_mlfq.c:101-140 | a task out of time moves to the end of the next queue (the last stays the last) with that queue's full slice and the state it had; any other call changes nothing; no task is lost |
| Mlfq.CoversWithout | src/scheduler_mlfq.c:113-131 | taking a task out of its queue leaves every other task in exactly the queue it names |
| Mlfq.Scheduler.Tick | src/scheduler_mlfq.c:143-159 | the running task pays one tick; every hundredth tick, and no other, boosts, with queue, slice and state of every task said |
| Mlfq.Scheduler.Next | src/scheduler_mlfq.c:162-175 | the first ready task in (queue, position) order, null exactly when no task is ready |
| Ring.ModIsSlot | src/msg_queue.c:98 | advancing modulo the ring size is one step around the ring |
| MsgQueue.BackFromAll | src/msg_queue.c:160 | (s - 1 + max) % max in unsigned arithmetic steps back from every slot if and only if there are at most 2^31 slots |
| MsgQueue.MsgQueue.Send | src/msg_queue.c:75-107 | appends the first `size` bytes of the message with what the slot held behind them, or changes nothing when the queue is full |
| MsgQueue.StoredType | src/msg_queue.c:94-96 | what is stored has the type of the message sent, if its type is among the bytes sent |
| MsgQueue.TypeOfLong | src/msg_queue.c:94 | a message that starts with the four little-endian bytes of a signed 32-bit number has that number as its type |
| MsgQueue.SentIsFound | src/msg_queue.c:81-141 | a message sent with type t behind others that a receiver will not take is what this receiver finds if and only if it asks for t or for any type |
| MsgQueue.MsgQueue.Search | src/msg_queue.c:128-141 | finds the slot of the first message of the type across any wrap-around |
| MsgQueue.MsgQueue.Shift | src/msg_queue.c:156-165 | the messages before the taken one move up one slot, the others stay |
| MsgQueue.MsgQueue.Receive | src/msg_queue.c:110-177 | removes the first message of the type (any for type 0) and returns its first `size` bytes, the rest in order; no match or an empty queue changes nothing |
| MsgQueue.TypesAreQueues | src/msg_queue.c:128-141 | a typed receive takes the oldest message of its type and disturbs no other type: each type is a queue of its own |
| MsgWakeups.NeverLostIff | src/msg_queue.c:75-177 | over every run, a waiting sender or receiver means that there is nothing to do for it or that a signalled one has yet to look, if and only if there is at most one receiver, or every type sent is taken by every receiver, or nothing can be sent |
| MsgWakeups.ReceiverLost | src/msg_queue.c:128-146 | otherwise a receiver that finds no message of its type swallows the signal: a run that leaves the other one waiting beside a message |
| MsgWakeups.SendKeeps | src/msg_queue.c:75-107 | a send keeps as many signalled receivers as messages while others wait |
| MsgWakeups.ReceiveKeeps | src/msg_queue.c:110-177 | a receive keeps as many signalled senders as free slots while others wait |
| MsgWakeups.Watched.SendRegion | src/msg_queue.c:75-107 | the method takes the step these runs are made of |
| MsgWakeups.Watched.ReceiveRegion | src/msg_queue.c:110-177 | and so does the receiving one |
| Pipe.PatchedExtends | src/pipe.c:94-104 | a write behind the content, in one piece or two, extends the content by the bytes written |
| Pipe.AroundSplit | src/pipe.c:147-157 | the content splits at any point, whether the copy is split or not |
| Pipe.Pipe.Put | src/pipe.c:94-106 | a chunk that fits is appended to the content; write_pos = (read_pos + count) mod size again |
| Pipe.Pipe.Take | src/pipe.c:147-159 | the first n bytes leave in order |
| Pipe.Pipe.Write | src/pipe.c:70-116 | between waits a writer moves as many bytes as fit, in order, and signals once if it moves any; it waits exactly when full, and fails exactly when full with the reader closed |
| Pipe.Pipe.Read | src/pipe.c:119-169 | between waits a reader gets as many bytes as there are, in order, and signals once if there are any; it waits exactly when empty, and ends early exactly when empty with the writer closed |
| PipeRuns.StepOrderly | src/pipe.c:70-169 | every region keeps: bytes sent = bytes received ++ content, content at most the size, each writer's bytes sent in its order and once |
| PipeRuns.RunsConserve | src/pipe.c:70-169 | over every interleaving of any number of readers and writers |
| PipeRuns.Session.WriteRegion | src/pipe.c:70-116 | a region of pipe_write takes the step of such a run |
| PipeRuns.Session.ReadRegion | src/pipe.c:119-169 | and a region of pipe_read, which adds the bytes it got to those received |
| PipeWakeups.NeverLostIff | src/pipe.c:70-169 | over every run, a waiting writer or reader means a full or empty pipe or a signalled one that has yet to look, if and only if there is at most one reader and at most one writer, or none on one side, or the pipe holds one byte |
| PipeWakeups.ReaderLost | src/pipe.c:126-163 | otherwise one signal for a chunk of two bytes leaves the second reader waiting beside a byte |
| PipeWakeups.WriterLost | src/pipe.c:77-110 | or the second writer beside free space |
| PipeWakeups.Watched.WriteRegion | src/pipe.c:70-116 | the method takes the step these runs are made of, waiting exactly when it joins the queue |
| PipeWakeups.Watched.ReadRegion | src/pipe.c:119-169 | and so does the reading one |
| WsFrame.MaskTwice | src/frame.c:5-10 | masking is its own inverse |
| WsFrame.MaskPayload | src/frame.c:5-10 | the loop exclusive-ors octet i of the payload with octet i mod 4 of the key, in place, and touches nothing else |
| WsFrame.ParseFrameHeader | src/frame.c:12-52 | -1 exactly when the header is cut off; otherwise its size and the fields section 5.2 of RFC 6455 defines |
| WsFrame.FirstTwo | src/frame.c:17-23 | the fields of the first two octets, each in its range, make up these octets again: FIN, reserved bits and opcode; mask bit and length |
| WsFrame.FirstMessage | src/server.c:126-144 | the first message delivered is, octet by octet, the payload received exclusive-ored with the last four octets of its header in turn, or the payload itself if unmasked |
| WsFrame.HelloBuilt | src/frame.c:54-102 | the masked "Hello" of section 5.7 of RFC 6455 is built as the eleven octets given there |
| WsFrame.HelloReceived | src/server.c:126-144 | and the server loop, given these octets, delivers "Hello" |
| WsFrame.LongHeads | src/frame.c:54-102 | the headers of the two long examples there |
| WsFrame.BuildFrame | src/frame.c:54-103 | -1 when the frame does not fit, writing nothing; otherwise the frame and nothing behind it, and its size as a 32-bit integer, which is the size if and only if that is below 2^31 |
| WsFrame.ParseBuilt | src/frame.c:12-103 | parsing a built frame, whatever follows, recovers FIN = 1, opcode, mask bit, key and length in all three length classes |
| WsFrame.SplitOne | src/server.c:119-145 | the loop takes one whole frame off the front and delivers its original payload |
| WsFrame.SplitWire | src/server.c:119-145 | the frames in any concatenation of whole frames, even with a cut-off frame behind, are exactly the original messages in order |
| WsFrame.ClientLoop | src/server.c:126-145 | after any number of turns buffer, position and what was delivered are those of the step function, whose sum of position and length is taken modulo 2^64 |
| WsFrame.DeliversSplit | src/server.c:126-145 | on any bytes received the loop ends having delivered exactly the messages of the whole frames if and only if it reaches no header whose position plus length is 2^64 or more |
| WsFrame.DeliversWire | src/server.c:126-145 | whole frames with a cut-off one behind: the original messages arrive, and nothing else, if and only if the last header does not wrap |
| WsFrame.TurnCut | src/server.c:132-133 | on a payload that is not all there the test stops the loop unless the sum wraps, and then it always passes |
| WsFrame.EndsWithSplit | src/server.c:126-145 | without such a header the loop ends with the messages delivered |
| WsFrame.NeverJustSplit | src/server.c:126-145 | with one it has delivered more if it ends at all |
| WsFrame.Endless | src/server.c:126-145 | ten bytes, an unmasked PONG of length 2^64 - 10, on which it never ends |
| Bytes.ValueBig | src/frame.c:29-39 | a number in k big-endian bytes is read back |
| Mqtt.EncodeLength | src/mqtt_protocol.c:24-38 | writes the number seven bits a byte, least significant first, and reports how many bytes |
| Mqtt.DecodeLength | src/mqtt_protocol.c:41-59 | a protocol error exactly when no byte of the first four ends the number; otherwise its value and size |
| Mqtt.LengthRoundTrip | src/mqtt_protocol.c:24-59 | decoding an encoding gives number and byte count if and only if the number is below 2^28; larger ones are refused |
| Mqtt.VarIntSize | src/mqtt_protocol.c:24-38 | the encoding has at most five bytes, at most four exactly below 2^28 |
| Mqtt.VarIntShortest | src/mqtt_protocol.c:24-38 | no encoding of a number is shorter than the one produced |
| MqttConnect.StrRoundTrip | src/mqtt_protocol.c:110-148 | a string behind its two-byte length is read back if and only if it is shorter than 65536 bytes |
| MqttConnect.FullPacket | src/mqtt_protocol.c:62-155 | the 27 bytes of a packet with identifier, will, user name and password |
| MqttConnect.SmallPacket | src/mqtt_protocol.c:62-155 | the 15 bytes of one with an identifier alone |
| MqttConnect.ProtocolName | src/mqtt_protocol.c:62-155 | the protocol name is the string "MQTT", the level 4 |
| MqttConnect.FlagsRead | src/mqtt_protocol.c:83-104 | each connect flag is set exactly when its field is there, the QoS in two bits, the reserved bit clear |
| MqttConnect.TwoBytes | src/mqtt_protocol.c:107-113 | the two bytes written are the low 16 bits, most significant first |
| MqttConnect.CreateConnect | src/mqtt_protocol.c:62-155 | after the memmove the buffer begins with the packet: type, length of what follows, body, where a fifth length byte takes the place of the first byte of the body |
| MqttConnect.CloseGap | src/mqtt_protocol.c:150-154 | moving the body behind its encoded length loses no byte of it |
| MqttConnect.ConnectRoundTrip | src/mqtt_protocol.c:62-155 | a reader written from section 3.1 of MQTT Version 3.1.1 recovers flags, keepalive and every field, with a length field that counts exactly the bytes behind it, if and only if every string fits its length field and the configuration keeps the rules of that section: QoS below 3, a password only with a user name, a client identifier or a clean session, UTF-8 strings |
| MqttConnect.Refused | src/mqtt_protocol.c:83-104 | four configurations the builder takes and the reader refuses, one for each rule |
| MqttConnect.FlagRulesRead | src/mqtt_protocol.c:83-104 | the flags byte keeps the rules on flags if and only if the QoS is not 3 and there is no password without a user name |
| MqttConnect.BodySize | src/mqtt_protocol.c:150-152 | a body whose strings fit never needs more than four length bytes |
| Utf8.EncodeCorrect | src/cjson.c:126-138 | the bytes stored are the UTF-8 form (section 3 of RFC 3629) of the code point, shortest form and no surrogate |
| Utf8.PairRoundTrip | src/cjson.c:117-124 | combining the two halves of a code point above 0xFFFF gives it back |
| CJson.EscapeMeaning | src/cjson.c:112-139 | a \u escape whose four digits, in either case, are those of a code point, or a pair with the digits of its two halves, comes out as the UTF-8 of that code point; only \u0000 is dropped |
| CJson.Hex4Is | src/cjson.c:113 | four bytes have the value n if and only if they are the hexadecimal digits of n, highest first, each in either case |
| CJson.Hex4Value | src/cjson.c:113 | that value is by place 4096, 256, 16 and 1 |
| CJson.Examples | src/cjson.c:112-139 | \u20Ac comes out as E2 82 AC and \ud83D\uDE00 as F0 9F 98 80 |
| CJson.PlainIff | src/cjson.c:107-141 | behind a backslash every byte is itself but b, f, n, r and t |
| CJson.DroppedIff | src/cjson.c:112-124 | an escape writes nothing if and only if it is \u0000 or a half without its other half |
| CJson.CountNext | src/cjson.c:92 | the first pass counts every token at least as often as the second writes bytes for it |
| CJson.CountEnough | src/cjson.c:92-145 | so the second pass never writes more than was counted |
| CJson.PutUtf8 | src/cjson.c:126-138 | storing the bytes from the last back to the first gives the encoding in place |
| CJson.ParseTurn | src/cjson.c:99-144 | one turn of the second pass, on any text and whatever sscanf makes of it, reads only inside the text, and takes and writes what the step function says unless the buffer has no room |
| CJson.ParseString | src/cjson.c:83-150 | text not starting with a quote is refused; otherwise the outcome on any text is the one Fate names, and when it is Done the result is ended by NUL inside the buffer the first pass sized, and the end is behind the closing quote |
| CJsonCounts.DoneIff | src/cjson.c:83-150 | parse_string is done with a text if and only if no backslash before the closing quote is its last byte, no escape the second pass meets is cut off, and its counts hold; where all digits are harmless, if and only if an int can hold the count |
| CJsonCounts.HarmlessFits | src/cjson.c:92-146 | where the first pass gets through the four bytes in the place of the digits of every \u the second pass meets, counting three at least, both passes stay inside the text and no more bytes come out than were counted, whatever sscanf makes of them |
| CJsonCounts.HarmlessIff | src/cjson.c:92-146 | and these are exactly the four bytes with which, alone among well-formed bytes, no text overflows the count |
| CJsonCounts.PlainHarmless | src/cjson.c:92-115 | any four bytes without a quote or a backslash among them are harmless |
| CJsonCounts.WellFormedHarmless | src/cjson.c:92-146 | and so are all digits of a well-formed text |
| CJsonCounts.SwallowedQuote | src/cjson.c:92-115 | a quote among them at which the first pass stops: whatever well-formed text comes before, enough letters behind overflow the count |
| CJsonCounts.TakenOn | src/cjson.c:92-115 | a backslash as the last of them: enough letters overflow the count behind a backslash and a quote |
| CJsonCounts.QuoteInDigits | src/cjson.c:92-138 | ten bytes of which the first pass counts two and the second writes four at least |
| CJson.WalkInside | src/cjson.c:96-146 | the second pass stays inside the text if and only if no escape it meets is cut off |
| CJson.CountPass | src/cjson.c:92 | the first pass stays inside the text if and only if every backslash before the closing quote is followed by something |
| CJson.CutOff | src/cjson.c:92-146 | a lone backslash leaves the text in the first pass, a \u with three bytes behind it in the second; \u12zz stays inside |
| CJson.WellFormedDone | src/cjson.c:83-150 | on every well-formed literal that an int can measure it is done, with what the escapes mean |
| CJson.PrintString | src/cjson_print.c:32-87 | fills exactly the length + 3 bytes the first pass counted: quote, escapes, quote, NUL; nothing if and only if that exceeds an int |
| CJson.EscapeNext | src/cjson_print.c:61-83 | an escaped byte is read back as that byte and nothing more |
| CJson.EscapeTable | src/cjson_print.c:61-83 | the seven short escapes, byte by byte; other control characters as four lower-case hexadecimal digits; all else as itself |
| CJson.PrintParse | src/cjson_print.c:32-87 | parsing a printed string gives the string, for every string without NUL |
| CJson.PrintedIsParsed | src/cjson_print.c:32-87 | and parse_string is done with it |
| Clock.FrameTable.ClockSelect | src/mm_pra.c:57-68 | stops within frame_count + 1 probes at the first unaccessed frame in circular order from the hand, or back at the hand if all were accessed; clears exactly the frames it passed; the hand is just behind the victim |
| Clock.FrameTable.AllocPage | src/mm_pra.c:104-168 | a free frame is used if there is one, else the clock's victim is; exactly that frame gets the new page; pages stay distinct; on failure every frame keeps its page, so a page the MMU has lost is still on record if and only if no new page could be had |
| Clock.FrameTable.FreePage | src/mm_pra.c:171-190 | exactly that page leaves the table |
| Clock.FrameTable.AccessPage | src/mm_pra.c:193-211 | exactly that page's frame is marked accessed |
| Clock.SecondChance | src/mm_pra.c:57-68 | an accessed frame is not the victim as long as any frame is not accessed |
| Clock.PagesReplaced | src/mm_pra.c:158-162 | putting a new page into one frame keeps pages distinct and swaps one page for the other |

## Left out

- Epoll: the lock, the ready list and `epoll_wait`.
- RbTree: `rb_link_node` is taken as "link a red leaf"; `rb_erase`, which the repository calls but does not define, is taken in RbErase as the usual unlink (a node with two children is replaced by its successor) followed by `rb_erase_color`; the copy of the rotations and of the insert fix-up in `src/scheduler_fair.c` is the same algorithm and is modelled once.
- FairScheduler: dequeue (a stub in the source), virtual run time accounting, weights; keys do not change while an entity is in the tree.
- FileSystem.Files.Read: asks that position plus count not wrap 32 bits; beyond that `fs_read` does not clip (ClipIff) and runs past the blocks a file can have.
- FileSystem.Files.Write: stays within direct and single-indirect blocks; the double and triple indirect ranges are comments in the source.
- File system: one mount, a device that does not fail and whose bitmaps, inode table and block 0 are marked used; `cache_get_block` is a search of the ring; reference counts, seeks, truncation, freeing of file blocks, path lookup, open and close, `cache_sync`, memory exhaustion in the cache. The superblock beyond its fields is zero.
- Block data in the cache and the buffers of fs_read's inner block are sequence values, not arrays.
- Mutex, condition, semaphore: contention counters, null checks, `task_yield`, `condition_timedwait`.
- Conditions.Condition.Wait: is the region up to `task_yield`; the `mutex_lock` after the wakeup is a region of its own, and SyncSystem.WaitReturnsOwner is about both.
- RwLock is a transition system over values, not a class, because its calls block halfway; the mutex and the condition variable it is built on have the class form in Mutex and Condition, with the same specification functions. Time is not modelled.
- Malloc: the payload starts `BLOCK_SIZE` above the header, as `free` evidently means; memory is a map from header addresses to headers; `sys_brk` is contiguous and refuses to pass a limit below 2^32; `realloc` and `calloc`; a pointer given to `free` is null or live.
- SkipList: keys are byte strings and values two numbers; the lock; freeing a list; forward[] is a sequence of 32 links.
- Mlfq: `BASE_QUANTUM` is not defined in the source and is a parameter, with the quanta modulo 2^32; a task is initialised only while in no queue; `boost_ticks` is never used.
- MsgQueue: at most 2^31 slots; slots of at least the four bytes of a type; `size` is at most the size of a slot and of the caller's message, which the source does not check; find_msg_queue and statistics; in MsgWakeups no wait times out.
- Pipe: the descriptor lookup, the test on entry for an end closed by oneself, statistics and closing; a region begins with the lock held, and waiting ends it; in PipeWakeups both ends stay open.
- WsFrame: the handshake, sockets, what is done with a delivered message, and what follows once `ws_mask_payload` has written past the buffer.
- MqttConnect.CreateConnect: the buffer is long enough, which the source does not check; strings are never missing where the source takes their length.
- CJson: numbers, arrays, objects, memory exhaustion, and the empty literal `print_string` makes of a missing string.
- CJson.ParseString: what `sscanf` makes of anything but four hexadecimal digits is left open, as a parameter; once a pass leaves the text, more bytes come out than were counted, or a count exceeds an int, nothing more is said.
- Clock: the FIFO, LRU and NFU policies, statistics, the lock; the page allocator never hands out a page that is in the table.
- Drivers, startup code, networking and TLS wrappers, audio, the real-time scheduler's test, `src/mm_alloc.c`, `src/transaction.c` and `src/task.c`.
