# A verified model of the CosmoRT kernel's core data structures and protocols

CosmoRT is a small kernel written in C. This project models its hardest self-contained parts in Dafny, in the imperative
form the kernel has, and proves what they are for. Memory is modelled as values: a structure the kernel changes in place
is a class whose fields are maps and sequences indexed by small integers in the role of pointers, and every method states
its whole new state against a pure description (an in-order sequence, a file's bytes, a map from names to inodes, a view of
the disk). Protocols between threads are step machines; their theorems are about every run.

| modules | models | main results |
|---|---|---|
| `RbTree`, `RbHeight`, `HrTimer` | red-black tree with parent pointers, NULL leaves, cached leftmost node; high-resolution timers on it | insertion and deletion keep all red-black and link invariants and edit the in-order sequence by exactly one node; no path is longer than twice the logarithm of the size; expiry fires due timers by deadline and then by arming and leaves all others alone |
| `Ext4Bitmap`, `Ext4Volume`, `Ext4Map`, `Ext4File`, `Ext4Truncate`, `Ext4Cached`, `Ext4Format`, `Ext4Cases` | block bitmaps and counters, direct, single- and double-indirect mapping, read, write, truncate | no block is owned twice or handed out twice; a write changes exactly the written bytes of exactly that file, also when it runs out of space, and reads back; truncate frees exactly what it drops; reads and overwrites through the block cache are those of a plain disk; where bits, pointers and blocks lie on the disk; a small valid volume on which the shortcomings show |
| `Ext4Dirent`, `Ext4Dir`, `Ext4DirCases` | directories packed as records in raw blocks | a directory is a finite map; blocks stay tiled by records; a block as a formatter writes it, byte for byte, lists what it should |
| `LruHash`, `Bcache`, `Icache` | hash chains, LRU list, block cache, inode cache stacked on it | the cache refines a plain disk; the record of every inode lies where its number says; every inode read returns the last write, over all runs |
| `Rcu`, `RcuSync`, `RcuProgress` | preemptible RCU, grace periods, blocked readers, callback queues, synchronize_rcu | in every run on any number of CPUs a callback waits for every reader that was inside; callbacks run once, in order; none is left behind: two rounds of context switches and ticks with nobody inside run every callback and wake every waiter; when synchronize_rcu can miss a reader, exactly |
| `RunQueue`, `WaitQueue`, `EventFd`, `EventFdCalls` | priority run queues, wait queues, eventfd's blocking protocol | nobody runs while somebody of higher priority is ready; no lost wake-up in any interleaving; conservation of the counter; the calls on the objects are runs of the protocol |
| `VfsLookup`, `VfsPaths` | path resolution that splices link targets into one buffer | a path means what the tree says, component by component, and a link means its target; it means the same as a walk that continues from the directory holding the link, exactly while every spliced text fits |
| `Ring`, `VirtQueue` | single-producer single-consumer byte ring; virtqueue descriptors and rings | reads are a prefix of writes in every interleaving, across index wrap; descriptor chains stay disjoint and complete |
| `ClockSource`, `TimerFd` | clock scaling and registry; timerfd expirations | when scaling is accurate and cannot overflow, exactly; the clock is monotonic and its lag bounded; no expiration is missed or counted twice, exactly while the next boundary fits 64 bits |

`Arith`, `Lists` and `Bytes` hold what the other modules share: facts about division and remainder, lists without
repetition, bytes.

Some properties one would expect do not hold of the code. The code is modelled as it is; for each, a member shows a
concrete failing case and another one gives the condition, over what is known before the call, under which the property
holds and without which it fails:

- Truncation does not trim inside the double-indirect region when the new size still reaches it, and does not count that
  region in `i_blocks` (`Ext4Truncate.TruncatedEmptyBeyond`, `TruncatedCount`; failing: `Ext4Cases.DoubleNotTrimmed`).
- A truncated size of 4 GiB or more loses its upper half (`Ext4Truncate.CutSizeExact`; failing: `Ext4Cases.SizeHalved`).
- Truncation does not clear the rest of the last block it keeps, so growing the file again can show old bytes
  (`Ext4Truncate.ZeroTailIff`; failing: `Ext4Cases.TailShows`).
- Block numbers are cut to 32 bits, so a write at 2^32 blocks or more lands in a low block, and a read there shows one.
  A successful write is one at its offset if and only if the offset is below 2^32 blocks or what is stored and what was
  there are all zero (`Ext4File.Ext4.Write`, `WroteIff`; failing: `Ext4Cases.FarWrite`); a range that only crosses the
  limit fails with ENOSPC. A read returns the file's bytes if and only if what shows beyond 2^32 blocks is zero
  (`Ext4File.Ext4.Read`, `ShowsIff`; failing: `Ext4Cases.FarRead`).
- The block count of a truncated size is cut to 32 bits too, so a cut to 2^32 blocks or more can drop blocks below the new
  size (`Ext4Truncate.NewBlocksCeiling`, `KeptBelowIff`; failing: `Ext4Cases.CutsAll`).
- Freeing a block that is free already, or one that holds bitmaps, is not refused and leaves an invalid volume
  (`Ext4Volume.Volume.Free`; failing: every free block, `Ext4Volume.FreeTwice`).
- `synchronize_rcu` joins a grace period already in flight. From any reachable state it can return too early for a reader
  that is inside if and only if a grace period is in flight that does not await that reader (`RcuSync.SyncIff`; failing:
  `RcuSync.TwoCoreSync`). On one core that never happens (`SingleCoreSync`, `SingleCoreNeverMisses`).
- The length check for a relative link leaves out the prefix, so the new text may not fit the buffer. A lookup has the
  meaning of its path if and only if every text it puts together is shorter than the buffer (`VfsLookup.MeaningIff`,
  `OverrunIff`; failing: `OverrunExample`). `RoomEnough` is a simpler bound that suffices.
- A virtqueue whose size does not divide 65536 overwrites waiting entries when the 16-bit index wraps
  (`VirtQueue.OverwriteIff`, `WrapIff`; failing: `WrapBroken`).
- `clocksource_calc_mult_shift` may find no shift and then returns the multiplier of shift 1 with shift 0
  (`ClockSource.UsableIff`; failing: `RunsOut`). A found shift may belong to a multiplier whose computation wrapped
  (`AccurateIff`, `WrapsFirst`; failing: `WrapsToZero`), and an interval of 2^64 cycles or more may overflow
  (`SafeIff`; failing: `IntervalWraps`). `UsableIff`, `SafeIff` and `TinyIff` speak of the arguments alone, for all
  arguments for which shift 32 does not wrap; `OverflowIff` and `AccurateIff` cover wrapping arguments as well, in terms of
  the shift found. The source's comment speaks of the largest shift for which the shifted number of cycles fits; the code
  bounds the multiplier instead, and the model follows the code.
- `timerfd_settime` checks neither seconds nor nanoseconds, so a negative interval becomes one of nearly 2^64
  milliseconds, and the catch-up loop counts expirations that never were. Over any run the count is right if and only if
  the timer is one-shot or the next boundary fits 64 bits (`TimerFd.Timer.Run`, `RightIff`, `MillisIff`; failing:
  `TimerFd.NegativeInterval`).
- Unregistering any clock source starts the nanosecond count anew, even if the current source stays
  (`ClockSource.Registry.Unregister`; failing: `GoesBack`).

Further limits of width are stated as exact conditions: the length of a read whose end passes 64 bits
(`Ext4File.ReadLenIff`), the size a write leaves (`ResizedIff`, `SizeRoundTrip`), and the length returned as a signed
32-bit number (`Arith.Int32Iff`).

## Model

| member | source | states |
|---|---|---|
| RbTree.RbRoot.constructor | include/kernel/core/rbtree.h:22 | an empty root is a valid tree with an empty in-order sequence |
| RbTree.RbRoot.Rotate | src/kernel/core/rbtree.c:9-37 | both rotations: the pointer writes amount to exactly one turn of the edge, whatever hangs around it |
| RbTree.RotWired | src/kernel/core/rbtree.c:9-37 | a rotation keeps every parent and child link consistent and the in-order position of every node |
| RbTree.RbRoot.InsertRaise | src/kernel/core/rbtree.c:55-73 | outer red child: painting and one rotation end the red-red conflict with all black counts equal |
| RbTree.RbRoot.InsertTurn | src/kernel/core/rbtree.c:51-74 | inner red child: turned outward first, then the same |
| RbTree.InsertRecolor | src/kernel/core/rbtree.c:44-65 | red uncle: recolouring moves the only conflict to the grandparent and keeps the black counts |
| RbTree.RbRoot.InsertPaint | src/kernel/core/rbtree.c:44-65 | the same for the code |
| RbTree.RbRoot.InsertStep | src/kernel/core/rbtree.c:43-75 | one round leaves at most one red-red conflict, and if it goes on, it goes on at the grandparent |
| RbTree.RbRoot.InsertFixup | src/kernel/core/rbtree.c:39-78 | after linking a red leaf: no red node has a red child, black counts agree, the root is black, order kept, loop terminates |
| RbTree.RbRoot.EraseRedSibling | src/kernel/core/rbtree.c:138-169 | red sibling: afterwards the sibling is black and the shortage is where it was |
| RbTree.RbRoot.ErasePush | src/kernel/core/rbtree.c:144-174 | black sibling with black children: the shortage moves to the parent |
| RbTree.RbRoot.EraseNearRed | src/kernel/core/rbtree.c:150-181 | near nephew red: one rotation makes the far nephew red |
| RbTree.RbRoot.EraseFarRed | src/kernel/core/rbtree.c:156-186 | far nephew red: one rotation ends the shortage |
| RbTree.RbRoot.EraseStep | src/kernel/core/rbtree.c:136-188 | one round of the repair, both sides, with the explicit parent of a possibly NULL child |
| RbTree.RbRoot.EraseFixup | src/kernel/core/rbtree.c:134-191 | one black node short below x: afterwards all black counts agree again; loop terminates |
| RbTree.RbRoot.Transplant | src/kernel/core/rbtree.c:81-89 | the subtree v hangs where u hung, nothing else changed |
| RbTree.RbRoot.TreeMinimum | src/kernel/core/rbtree.c:91-94 | the first node in order below x |
| RbTree.RbRoot.Next | src/kernel/core/rbtree.c:194-204 | the next node of the in-order sequence, NULL for the last |
| RbTree.UnlinkOneDone | src/kernel/core/rbtree.c:107-114 | taking out a node with at most one child drops it from the order and leaves one black node missing exactly if it was black |
| RbTree.RbRoot.UnlinkOne | src/kernel/core/rbtree.c:107-114 | the same for the code |
| RbTree.UnlinkTwoDone | src/kernel/core/rbtree.c:115-131 | the successor takes the place, colour and children of the node; the order loses just that node |
| RbTree.RbRoot.Replace | src/kernel/core/rbtree.c:115-131 | both successor cases, adjacent or deeper, are one substitution |
| RbTree.RbRoot.UnlinkTwo | src/kernel/core/rbtree.c:115-131 | the same for the code, with the place where a black node may be missing |
| RbTree.RbRoot.Erase | src/kernel/core/rbtree.c:96-192 | the tree stays a red-black tree, the in-order sequence loses exactly z, leftmost is its first node, other memory is untouched |
| RbTree.LinkDone | include/kernel/core/rbtree.h:39-45 | a red leaf in an empty slot extends the order at that slot and breaks nothing but possibly the red rule at itself |
| RbTree.RbRoot.Link | include/kernel/core/rbtree.h:39-45 | the same for the code |
| RbTree.RbRoot.LinkAndFix | src/kernel/core/hrtimer.c:110-134 | link, repair and leftmost update: a valid tree with exactly z inserted at its place |
| RbTree.TraverseIsOrder | src/kernel/core/rbtree.c:96-192 | the ghost order is the recursive in-order traversal of the pointers |
| RbTree.SameBlacks | src/kernel/core/rbtree.c:39-78 | in a valid tree every path from the root to a missing child has the same number of black nodes |
| RbHeight.Weight | include/kernel/core/rbtree.h:1-5 | a subtree of black height h has at least 2^h - 1 nodes |
| RbHeight.PathShort | include/kernel/core/rbtree.h:1-5 | a path to a missing child is at most twice the black height long, one more below a red node |
| RbHeight.Logarithmic | include/kernel/core/rbtree.h:1-5 | in a valid tree of n nodes no path from the root is longer than 2 log2(n + 1), the promised O(log n) |
| HrTimer.HrTimerBase.constructor | src/kernel/core/hrtimer.c:143-185 | no timer is armed |
| HrTimer.HrTimerBase.FindSlot | src/kernel/core/hrtimer.c:110-134 | the descent ends at the slot behind every timer that is not later; it never went right exactly if that is the front |
| HrTimer.HrTimerBase.Enqueue | src/kernel/core/hrtimer.c:110-134 | the timer is inserted behind every timer that is not later; the queue stays ranked by deadline and then by arming |
| HrTimer.HrTimerBase.Dequeue | src/kernel/core/hrtimer.c:136-139 | exactly that timer leaves the queue |
| HrTimer.HrTimerBase.Start | src/kernel/core/hrtimer.c:195-208 | an armed timer is moved, an idle one inserted |
| HrTimer.HrTimerBase.Cancel | src/kernel/core/hrtimer.c:210-224 | removes an armed timer and says whether it was armed |
| HrTimer.HrTimerBase.FireNext | src/kernel/core/hrtimer.c:258-285 | one round: fires the first due timer, or nothing if none is due |
| HrTimer.HrTimerBase.RunExpired | src/kernel/core/hrtimer.c:258-285 | fires the due timers that no earlier callback took away, in order of deadline and then of arming; whatever fires was armed with a deadline not after now, whatever is left has one after now; leaves every timer nobody touched in place, for all callbacks that re-arm past now |
| HrTimer.AllFire | src/kernel/core/hrtimer.c:258-285 | if no callback touches a timer still waiting to fire, exactly the due timers fire, in queue order |
| HrTimer.FiresRanked | src/kernel/core/hrtimer.c:258-285 | whatever callbacks do, what fires stays ranked by deadline and then by arming, so nothing fires twice |
| HrTimer.DueHead | src/kernel/core/hrtimer.c:258-285 | in a sorted queue nothing is due exactly if the first timer is not |
| HrTimer.HrTimerBase.FindData | src/kernel/core/hrtimer.c:231-254 | a queued timer with that data, NULL only if there is none |
| HrTimer.HrTimerBase.CancelFirst | src/kernel/core/hrtimer.c:231-254 | one round: takes out one matching timer, or shows there is none |
| HrTimer.HrTimerBase.CancelByData | src/kernel/core/hrtimer.c:231-254 | removes exactly the matching timers, keeps the order of the rest, returns how many |
| Ext4Bitmap.SetBitBits | src/kernel/fs/ext4.c:827-889 | setting bit k of a byte changes bit k and no other |
| Ext4Bitmap.ClearBitBits | src/kernel/fs/ext4.c:891-926 | clearing bit k of a byte changes bit k and no other |
| Ext4Bitmap.MarkUsed | src/kernel/fs/ext4.c:827-926 | changing a bitmap bit on disk changes the state of exactly that block |
| Ext4Bitmap.MarkCounted | src/kernel/fs/ext4.c:827-926 | group count, superblock count and number of clear bits move together |
| Ext4Bitmap.BlockNrParts | src/kernel/fs/ext4.c:827-926 | block numbers and (group, index) pairs correspond one to one |
| Ext4Volume.FirstClear | src/kernel/fs/ext4.c:849-882 | the byte and bit loops find the first clear bit, or all bits are set |
| Ext4Volume.Volume.FindInGroup | src/kernel/fs/ext4.c:843-884 | the first clear bit of a group over all its bitmap blocks |
| Ext4Volume.Volume.Alloc | src/kernel/fs/ext4.c:827-889 | returns the lowest free block, marked used and zeroed, counters one lower, nothing else changed; 0 exactly when no bit is clear |
| Ext4Volume.Volume.Free | src/kernel/fs/ext4.c:891-926 | clears exactly that block's bit and raises the counters, whatever the bit was; block 0 and blocks outside every group are ignored; the volume stays valid if and only if the block was in use, exists and holds no bitmap |
| Ext4Volume.FreeTwice | src/kernel/fs/ext4.c:914-923 | freeing a free block makes the free counts wrong |
| Ext4Volume.Volume.WriteBlock | src/kernel/fs/ext4.c:114-121 | writing a data block changes no bitmap bit |
| Ext4Volume.StaysUsed | src/kernel/fs/ext4.c:827-926 | over any run a block stays used until it is given back |
| Ext4Volume.NeverTwice | src/kernel/fs/ext4.c:827-926 | no block is handed out twice without a free in between |
| Ext4Map.ReadWritten | src/kernel/fs/ext4.c:498-514 | a pointer written into an index block reads back, the others are unchanged |
| Ext4Map.LocateInjective | src/kernel/fs/ext4.c:516-589 | different logical blocks have different slots in the pointer tree |
| Ext4Map.AllocKeeps | src/kernel/fs/ext4.c:827-889 | allocation moves no mapping and returns a block that no file names |
| Ext4Map.PlantedOwned | src/kernel/fs/ext4.c:516-589 | storing a fresh block in an empty slot keeps every block owned once |
| Ext4Map.PlantedBytes | src/kernel/fs/ext4.c:516-589 | and changes no byte of any file, because holes read as zero |
| Ext4Map.GrowField | src/kernel/fs/ext4.c:516-589 | the same for a pointer in the inode |
| Ext4Map.GrowIndex | src/kernel/fs/ext4.c:516-589 | the same for a pointer in an index block |
| Ext4File.Ext4.AllocField | src/kernel/fs/ext4.c:518-524 | the code for a pointer in the inode; the block is counted in i_blocks |
| Ext4File.Ext4.AllocEntry | src/kernel/fs/ext4.c:540-546 | the code for a pointer in an index block; the block is counted in i_blocks |
| Ext4File.Ext4.ResolveSingle | src/kernel/fs/ext4.c:529-548 | the single-indirect case |
| Ext4File.Ext4.ResolveDouble | src/kernel/fs/ext4.c:552-586 | the double-indirect case |
| Ext4File.Ext4.Resolve | src/kernel/fs/ext4.c:516-589 | returns the mapped block; one that is mapped already is returned with nothing changed; allocating on the way changes no byte of any file, moves no block, counts every block taken, and fails only if no block is free or no pointer reaches that far |
| Ext4File.StoreBytes | src/kernel/fs/ext4.c:678-722 | storing into the block of one logical block changes those bytes of that file only |
| Ext4File.WroteChunk | src/kernel/fs/ext4.c:678-722 | each round extends the prefix written so far |
| Ext4File.Ext4.WriteChunk | src/kernel/fs/ext4.c:688-706 | one round of the write loop, with the 32-bit block number: extends the prefix stored at the folded offset, or finds no room for its first byte |
| Ext4File.Ext4.Write | src/kernel/fs/ext4.c:678-722 | for every offset and length: success stores exactly the buffer at the offset modulo 2^32 blocks, which is a write at the offset if and only if it is below that limit or all is zero; every other byte of every file is unchanged, no block moves, ownership is kept, the size is raised if needed, i_blocks grows by the blocks taken; success only within reach of the pointers; on failure every byte is its old value or the one written, the inode is unchanged, and some byte of the range had no block and could get none |
| Ext4File.FoldedParts | src/kernel/fs/ext4.c:689-690 | block number and offset, taken in 64 bits and cut to 32, are those of the offset modulo 2^32 blocks |
| Ext4File.WroteIff | src/kernel/fs/ext4.c:688-706 | when a write stored modulo 2^32 blocks is one at its offset |
| Ext4File.Ext4.ReadBack | src/kernel/fs/ext4.c:632-722 | for every offset: a read of a range just written returns what was written, if the size fields can hold its end |
| Ext4File.GaveUp | src/kernel/fs/ext4.c:694-695 | what a write that runs out of space leaves behind |
| Ext4File.WroteBytes | src/kernel/fs/ext4.c:632-722 | the effect of a write in terms of byte positions |
| Ext4File.Ext4.Read | src/kernel/fs/ext4.c:632-676 | for every offset and length: returns the bytes at the offset modulo 2^32 blocks up to the size, holes as zero, and changes nothing; they are the bytes of the file if and only if what shows beyond 2^32 blocks is zero |
| Ext4File.ShowsIff | src/kernel/fs/ext4.c:654-673 | when the bytes read are those of the file |
| Ext4File.ReadLenIff | src/kernel/fs/ext4.c:642-643 | the length is what was asked for, up to the end of the file, if and only if the range ends within 64 bits or starts behind the file |
| Arith.Int32Iff | src/kernel/fs/ext4.c:675 | a length returned as an int is that length if and only if it is below 2^31 |
| Ext4File.SizeRoundTrip | src/kernel/fs/ext4.c:709-717 | a stored size reads back exactly when it is below 2^64 for a regular file (mode 0x8000 to 0x8FFF) of revision 1 or later, below 2^32 for any other |
| Ext4File.RegModes | src/kernel/fs/ext4.c:709-711 | the mask test accepts exactly the modes from 0x8000 to 0x8FFF |
| Ext4File.ResizedIff | src/kernel/fs/ext4.c:709-717 | after a write the file ends where it did or where the write did, if and only if that fits its size fields |
| Ext4Truncate.FreeIndirect | src/kernel/fs/ext4.c:726-736 | frees exactly the index block and what it names |
| Ext4Truncate.FreeDouble | src/kernel/fs/ext4.c:738-748 | frees exactly the double-indirect block and everything below it |
| Ext4Truncate.DropDirect | src/kernel/fs/ext4.c:771-776 | frees and clears exactly the direct pointers from n on |
| Ext4Truncate.TrimIndirect | src/kernel/fs/ext4.c:783-794 | frees and clears exactly the entries from the new end on; the index block stays |
| Ext4Truncate.DropBlocks | src/kernel/fs/ext4.c:771-801 | all three regions: the free count rises by exactly the dropped places |
| Ext4Truncate.CountBlocks | src/kernel/fs/ext4.c:803-815 | counts the filled direct, single and single-indirect places |
| Ext4Truncate.Truncate | src/kernel/fs/ext4.c:750-823 | the whole call: growing only changes the size; shrinking drops blocks, recounts and keeps every block owned once |
| Ext4Truncate.PtrAfter | src/kernel/fs/ext4.c:750-823 | every dropped place is empty, every other place of every file names what it named |
| Ext4Truncate.CutOwned | src/kernel/fs/ext4.c:750-823 | ownership is kept |
| Ext4Truncate.TruncatedMapping | src/kernel/fs/ext4.c:750-823 | mapping below n unchanged, from n on zero, except that the double-indirect region stays whole when n reaches it; other files unchanged |
| Ext4Truncate.TruncatedEmptyBeyond | src/kernel/fs/ext4.c:796-801 | everything from n on is gone if and only if n does not reach into the double-indirect region or nothing was there |
| Ext4Cases.DoubleNotTrimmed | src/kernel/fs/ext4.c:796-815 | on a valid volume of 1 KiB blocks, a file cut to 269 blocks keeps block 368 mapped, and i_blocks counts one of the four blocks it still owns |
| Ext4Truncate.TruncatedFrees | src/kernel/fs/ext4.c:726-823 | the blocks freed are exactly those the file named and no longer names; nobody names a freed block |
| Ext4Truncate.TruncatedBytes | src/kernel/fs/ext4.c:750-823 | bytes of kept blocks and of other files unchanged, dropped blocks read as zero |
| Ext4Truncate.TruncatedCount | src/kernel/fs/ext4.c:796-815 | after the cut i_blocks counts every block still owned if and only if the inode had no double-indirect block before or the new size does not reach the region below it |
| Ext4Truncate.NewBlocksCeiling | src/kernel/fs/ext4.c:768-769 | the block count is the size divided by the block size, rounded up, if and only if that fits 32 bits |
| Ext4Truncate.KeptBelowIff | src/kernel/fs/ext4.c:768-801 | the bytes below the new size are kept if and only if those in dropped blocks were zero |
| Ext4Truncate.KeptBelow | src/kernel/fs/ext4.c:768-801 | so they are kept for every size up to 2^32 - 1 blocks |
| Ext4Cases.CutsAll | src/kernel/fs/ext4.c:768-801 | a file cut to exactly 2^32 blocks loses its first byte |
| Ext4Cases.FarWrite | src/kernel/fs/ext4.c:688-717 | a byte written at 2^32 blocks overwrites the first byte of the file and leaves zero where it was meant |
| Ext4Cases.FarRead | src/kernel/fs/ext4.c:654-673 | a file grown past 2^32 blocks shows its first byte again there |
| Ext4Cached.PokedDisk | src/kernel/fs/ext4.c:100-112 | patching the page of a block changes that block of the plain disk and no other |
| Ext4Cached.Fetch | src/kernel/fs/ext4.c:102-112 | a copy out of a block through the cache is one from the plain disk; the view does not change |
| Ext4Cached.Store | src/kernel/fs/ext4.c:114-121 | a copy into a block through the cache is one into the plain disk; a failure changes nothing |
| Ext4Cached.FetchPtr | src/kernel/fs/ext4.c:498-505 | an index entry, or 0 if its block cannot be read |
| Ext4Cached.FindBlock | src/kernel/fs/ext4.c:516-589 | the block the plain disk maps, or 0 if an index block cannot be read |
| Ext4Cached.FetchChunk | src/kernel/fs/ext4.c:654-673 | one round of the read loop through the cache |
| Ext4Cached.Read | src/kernel/fs/ext4.c:632-676 | unless the device fails or all entries are held, a read through the cache returns what the plain read returns, and changes neither view nor references |
| Ext4Cached.StoreChunk | src/kernel/fs/ext4.c:688-706 | one round of the write loop through the cache, in a block the file has |
| Ext4Cached.Overwrite | src/kernel/fs/ext4.c:678-706 | a write through the cache into blocks the file has changes the plain disk as the plain write does and keeps ownership |
| Ext4Truncate.CutSizeExact | src/kernel/fs/ext4.c:817-819 | the new size reads back if and only if it is below 4 GiB |
| Ext4Truncate.UpperHalf | src/kernel/fs/ext4.c:817-819 | the field of the upper half is cleared by a cut and set by a growth only in regular files of revision 1 or later; in all others it stays |
| Ext4Cases.SizeHalved | src/kernel/fs/ext4.c:817-819 | a file of 6 GiB cut to 5 GiB has 1 GiB |
| Ext4Truncate.ZeroTailIff | src/kernel/fs/ext4.c:768-801 | everything from the new size on reads as zero if and only if every byte from there on in a block that is kept was zero before |
| Ext4Truncate.ZeroTail | src/kernel/fs/ext4.c:768-801 | a size that ends a block below the double-indirect region is always safe in this sense |
| Ext4Cases.TailShows | src/kernel/fs/ext4.c:750-823 | cut to 100 bytes and grown to 300, a file still shows its old byte 200 |
| Ext4Cases.SmallOwned | src/kernel/fs/ext4.c:516-589 | the volume of the cases is a valid one: every block owned once, none of them reserved |
| Ext4Dirent.FindRec | src/kernel/fs/ext4.c:1047-1062 | finds the first used record of that name and the record before it; the empty name never finds an entry |
| Ext4Dirent.AddTo | src/kernel/fs/ext4.c:1147-1181 | succeeds exactly if some record has room, inserts exactly that entry, keeps the block tiled by records |
| Ext4Dirent.RemoveFrom | src/kernel/fs/ext4.c:1230-1253 | drops exactly the first entry of that name, or for the empty name a record that is no entry; keeps the block tiled; the record before takes over its bytes, the first one is marked free, and the block has room for a name of that length again |
| Ext4Dirent.ReuseDone | src/kernel/fs/ext4.c:1152-1162 | filling a free record inserts one entry |
| Ext4Dirent.SplitDone | src/kernel/fs/ext4.c:1163-1179 | splitting a live record inserts one entry behind it and keeps the old one |
| Ext4Dirent.ClearDone | src/kernel/fs/ext4.c:1239-1250 | clearing the first record's inode removes one entry |
| Ext4Dirent.MergeDone | src/kernel/fs/ext4.c:1239-1250 | merging a record into the one before removes one entry |
| Ext4Dirent.FindInserted | src/kernel/fs/ext4.c:1028-1068 | after inserting a fresh name, it is found and every other name finds what it found |
| Ext4Dirent.FindRemoved | src/kernel/fs/ext4.c:1028-1068 | after removing an entry, its name is gone and every other name finds what it found |
| Ext4Dir.Lookup | src/kernel/fs/ext4.c:1028-1068 | the inode the directory's listing gives the name; ENOENT only if it has none; ENOTDIR exactly if the low 16 bits of the mode are not in 0x4000 to 0x4FFF |
| Ext4Dir.AddInside | src/kernel/fs/ext4.c:1137-1184 | the first block with room takes the entry; if none has room nothing changes |
| Ext4Dir.Append | src/kernel/fs/ext4.c:1186-1208 | a new block holding just the entry; a failure changes no byte of any file |
| Ext4Dir.Add | src/kernel/fs/ext4.c:1123-1209 | the listing gains exactly that entry, other files are unchanged, all blocks stay well formed; a failure changes no byte; ENOTDIR exactly by that range of the mode |
| Ext4Dir.Remove | src/kernel/fs/ext4.c:1211-1259 | the listing loses exactly the first entry of that name; ENOENT only if there is none, and then nothing changes; ENOTDIR exactly by that range of the mode; the empty name changes no listing; other files unchanged |
| Ext4Dir.AddedMap | src/kernel/fs/ext4.c:1123-1209 | as a map: the fresh name maps to its inode, all others as before; names stay distinct |
| Ext4Dir.RemovedMap | src/kernel/fs/ext4.c:1211-1259 | as a map: the name is gone, all others as before |
| Ext4Dir.DirModes | src/kernel/fs/ext4.c:1033 | the mask test accepts exactly the modes from 0x4000 to 0x4FFF |
| Ext4DirCases.EtcListed | src/kernel/fs/ext4.c:1040-1062 | 36 given bytes at the start of a block are read as the entries ".", ".." and "etc" |
| Ext4DirCases.FindsEtc | src/kernel/fs/ext4.c:1028-1068 | a directory of mode 0x41ED with that block: "etc" is found with inode 11; a file of mode 0x8000 is answered with -20 |
| Ext4Format.UsedBit | src/kernel/fs/ext4.c:827-926 | a block counts as used if and only if bit r of byte q of the m-th bitmap block of its group is set, for its position m * 8 * bs + 8 * q + r in the group |
| Ext4Format.PointerBytes | src/kernel/fs/ext4.c:498-514 | pointers are stored with the least significant byte first |
| Ext4Format.BlockNames | src/kernel/fs/ext4.c:516-589 | which pointer names which block of a file: 12 in the inode, then one block of pointers, then row by row the blocks of pointers behind the last one |
| Ext4Format.NoBlockBeyond | src/kernel/fs/ext4.c:516-589 | nothing is mapped beyond them |
| Ext4Format.BlockAddress | src/kernel/fs/ext4.c:100-112 | byte k of block b is byte b * bs + k of the device, in pages of 4096 |
| Ext4Format.RoomIff | src/kernel/fs/ext4.c:1147-1181 | a block has room for a name if and only if some record of it is free and long enough or has enough room behind its own name |
| LruHash.Index.constructor | src/kernel/fs/bcache.c:95-117 | all entries empty and on the list once |
| LruHash.Index.LruRemove | src/kernel/fs/bcache.c:52-58 | the list loses exactly that entry |
| LruHash.Index.PushFront | src/kernel/fs/bcache.c:60-66 | the entry becomes the first |
| LruHash.Index.PushBack | src/kernel/fs/ext4.c:241-258 | the entry becomes the last |
| LruHash.Index.Rehash | src/kernel/fs/bcache.c:68-72 | the entry is found under its new key |
| LruHash.Index.Unhash | src/kernel/fs/bcache.c:74-81 | the entry leaves its chain, all others stay |
| LruHash.Index.Find | src/kernel/fs/bcache.c:83-91 | the entry with that key, NIL exactly if no entry has it |
| LruHash.Unlinked | src/kernel/fs/bcache.c:52-58 | the pointer writes of the removal leave a proper doubly linked list |
| LruHash.Unhashed | src/kernel/fs/bcache.c:74-81 | the pointer writes of the removal leave proper chains with unique keys |
| LruHash.Hashed | src/kernel/fs/bcache.c:68-72 | the same for insertion under a key nobody has |
| Bcache.BufferCache.constructor | src/kernel/fs/bcache.c:95-117 | the view is the backend |
| Bcache.Dropping | src/kernel/fs/bcache.c:217-235 | writing back and dropping an entry leaves the view |
| Bcache.BufferCache.Evict | src/kernel/fs/bcache.c:217-235 | takes the least recently used entry nobody holds; NIL exactly if all are held; held entries are never touched |
| Bcache.BufferCache.Load | src/kernel/fs/bcache.c:259-278 | publish, move to front, read; a failed read takes it out again |
| Bcache.BufferCache.Get | src/kernel/fs/bcache.c:239-279 | returns the view of the block, held once more and first in the list; NIL exactly if not cached and all held or the read fails; view and held entries unchanged |
| Bcache.BufferCache.Put | src/kernel/fs/bcache.c:281-287 | one reference less, never below zero |
| Bcache.BufferCache.Store | src/kernel/fs/bcache.c:289-292 | changing a held entry and marking it dirty changes exactly the view of its block |
| Bcache.BufferCache.Sync | src/kernel/fs/bcache.c:294-306 | afterwards the backend is the view everywhere and nothing is dirty |
| Bcache.BufferCache.WriteBlock | src/kernel/fs/bcache.c:308-315 | changes exactly the view of that block, fails exactly when Get does, leaves the references |
| Bcache.BufferCache.Dispatch | src/kernel/fs/bcache.c:360-378 | the bulk buffer goes into the cache without changing the view |
| Bcache.BufferCache.FetchRun | src/kernel/fs/bcache.c:344-379 | one run, in bulk or block by block |
| Bcache.BufferCache.ReadAhead | src/kernel/fs/bcache.c:319-381 | changes neither view nor references nor held entries; with all reads succeeding the last block is cached unless all entries are held, and the whole range is if none of it was cached and as many entries are free as blocks are asked for |
| Bcache.GoesOn | src/kernel/fs/bcache.c:319-381 | with enough free entries the entry taken for the next block is behind all those just filled, so no block of the range makes room for a later one |
| Icache.Disjoint | src/kernel/fs/ext4.c:359-443 | records of different inodes do not overlap |
| Icache.Address | src/kernel/fs/ext4.c:359-410 | block, offset and page arithmetic agree on one byte address |
| Icache.RecordAt | src/kernel/fs/ext4.c:376-387 | the record of inode g * ipg + k + 1 starts at byte table[g] * bs + k * isz of the device |
| Icache.RecordHolds | src/kernel/fs/ext4.c:376-387 | the inode the view holds under a number is the 128 bytes there |
| Icache.Patched | src/kernel/fs/ext4.c:412-443 | patching one record changes no other inode |
| Icache.InodeCache.constructor | src/kernel/fs/ext4.c:225-239 | an empty cache over any block cache is coherent |
| Icache.InodeCache.Remember | src/kernel/fs/ext4.c:391-408 | the least recently used entry takes the inode; coherence kept |
| Icache.InodeCache.Read | src/kernel/fs/ext4.c:359-410 | returns the inode the view holds, from either cache or the disk, and remembers it: the 128 bytes at table[g] * bs + k * isz for inode g * ipg + k + 1 |
| Icache.InodeCache.Write | src/kernel/fs/ext4.c:412-443 | exactly that inode changes, in the page at the same address and in the cached copy |
| Icache.InodeCache.WriteExtra | src/kernel/fs/ext4.c:473-494 | exactly the bytes behind the inode structure change, no inode does |
| Icache.InodeCache.Invalidate | src/kernel/fs/ext4.c:241-258 | the cached copy is forgotten and its entry becomes the next to be reused |
| Icache.Elsewhere | src/kernel/fs/ext4.c:114-121 | writing bytes outside the inode tables changes no inode |
| Icache.InodeCache.Scribble | src/kernel/fs/ext4.c:114-121 | the same for the code: get, change, mark dirty, put; a failure changes nothing, and there is none if the device works, an entry is free and the bytes fit the page |
| Icache.InodeCache.Run | src/kernel/fs/ext4.c:181-443 | over any sequence of inode reads, writes and invalidations, block gets and puts, syncs, read-aheads and writes of bytes outside the inode tables, every inode read returns what the last write of that inode stored |
| Rcu.LockInv | src/kernel/core/rcu.c:268-273 | entering a section keeps the invariant |
| Rcu.DecInv | src/kernel/core/rcu.c:291-301 | leaving one keeps it |
| Rcu.SpecialInv | src/kernel/core/rcu.c:275-288 | coming off the blocked list keeps it |
| Rcu.NoteInv | src/kernel/core/rcu.c:306-342 | a context switch, of a reader or of anybody else, keeps it |
| Rcu.CallInv | src/kernel/core/rcu.c:356-374 | queueing a callback keeps it |
| Rcu.StartCovers | src/kernel/core/rcu.c:165-201 | a new grace period waits for everybody inside |
| Rcu.StartInv | src/kernel/core/rcu.c:165-201 | starting one keeps the invariant |
| Rcu.CompleteFrees | src/kernel/core/rcu.c:205-263 | when a grace period ends, no waiting callback is owed anybody |
| Rcu.CompleteInv | src/kernel/core/rcu.c:205-263 | ending one keeps the invariant |
| Rcu.DrainInv | src/kernel/core/rcu.c:119-135 | handing over and running finished callbacks keeps it |
| Rcu.StepInv | src/kernel/core/rcu.c:119-399 | every step keeps it |
| Rcu.RunInv | src/kernel/core/rcu.c:119-399 | it holds in every reachable state |
| Rcu.CallRcuWaits | src/kernel/core/rcu.c:356-374 | in every run, on any number of CPUs, a callback runs only after every thread inside at the call has left its outermost section |
| Rcu.CallbackOrder | src/kernel/core/rcu.c:119-246 | callbacks called on a CPU are, in order, those run, then batch, done, wait and next; the count is the number outstanding |
| RcuSync.SingleCoreSync | src/kernel/core/rcu.c:378-399 | on one core a waiter becomes ready only when nobody is inside |
| RcuSync.OnlyCompleteReadies | src/kernel/core/rcu.c:205-263 | nothing but the end of a grace period makes a waiter ready |
| RcuSync.Readied | src/kernel/core/rcu.c:205-263 | in every run, whoever is ready became so in a step that ended a grace period |
| RcuSync.SyncWaits | src/kernel/core/rcu.c:378-399 | in every run, on any number of CPUs, a waiter is ready only after every reader inside at the call has left that was awaited by the grace period in flight, or every one if none was |
| RcuSync.Ends | src/kernel/core/rcu.c:205-342 | from a state in which a reader is not awaited, steps of others lead to the end of the grace period while it stays inside |
| RcuSync.SyncIff | src/kernel/core/rcu.c:378-399 | in every reachable state synchronize_rcu can return too early for a reader inside if and only if a grace period is in flight that does not await it |
| RcuSync.SingleCoreNeverMisses | src/kernel/core/rcu.c:378-399 | with one CPU it cannot |
| RcuSync.TwoCoreSync | src/kernel/core/rcu.c:387-394 | two CPUs: a waiter ready while a reader from before is still inside |
| Rcu.StartHealthy | src/kernel/core/rcu.c:165-201 | starting a grace period keeps the class invariant: finished work is flagged for the next tick, whoever is awaited will report, an idle state has nothing queued, an active one is not yet complete, whoever is on the blocked list is inside |
| Rcu.CompleteHealthy | src/kernel/core/rcu.c:205-263 | ending one, with the chained start, keeps it |
| Rcu.CalledHealthy | src/kernel/core/rcu.c:356-374 | queueing a callback and possibly starting a grace period keeps it |
| Rcu.ReportedHealthy | src/kernel/core/rcu.c:306-342 | a report, and the completion it may bring, keeps it |
| Rcu.TickedHealthy | src/kernel/core/rcu.c:137-159 | a tick keeps it |
| Rcu.LeftHealthy | src/kernel/core/rcu.c:275-301 | leaving a section keeps it: whoever leaves the outermost one is off the blocked list |
| Rcu.RcuState.constructor | src/kernel/core/rcu.c:404-434 | the initial state has the class invariant and is one the protocol starts from |
| Rcu.RcuState.GpStart | src/kernel/core/rcu.c:165-201 | the code is the start step |
| Rcu.RcuState.GpFinish | src/kernel/core/rcu.c:205-246 | the code up to the chained start is the completion step; the deferred flag is set afterwards if and only if it was before or the grace period ended |
| Rcu.RcuState.GpComplete | src/kernel/core/rcu.c:205-263 | completion and, if callbacks are queued, the next start; afterwards the class invariant holds and the flag is set |
| Rcu.RcuState.ReadLock | src/kernel/core/rcu.c:268-273 | the code is the lock step: the nesting goes up by one; keeps the class invariant |
| Rcu.RcuState.ReadUnlock | src/kernel/core/rcu.c:275-301 | the code is the sequence of unlock steps: the nesting goes down by one; keeps the class invariant, so nobody stays on the blocked list after leaving |
| Rcu.RcuState.NoteContextSwitch | src/kernel/core/rcu.c:306-342 | the code is the context-switch step and what it completes: a reader is on the blocked list, of anybody else the CPU owes nothing more to this grace period; keeps the class invariant |
| Rcu.RcuState.CheckCallbacks | src/kernel/core/rcu.c:345-352 | starts a grace period exactly if callbacks wait and none is active; under the class invariant that never happens |
| Rcu.RcuState.CallRcu | src/kernel/core/rcu.c:356-374 | the code is the call step and possibly a start: the callback is the last one outstanding on its CPU, the count goes up and a grace period is active; keeps the class invariant |
| Rcu.RcuState.Synchronize | src/kernel/core/rcu.c:378-399 | the caller is the first of the waiters and a grace period is active; keeps the class invariant |
| Rcu.RcuState.DrainDone | src/kernel/core/rcu.c:119-135 | runs the finished callbacks in order, once, and lowers the count |
| Rcu.RcuState.DrainAll | src/kernel/core/rcu.c:143-146 | the finished callbacks of all CPUs, CPU by CPU |
| Rcu.RcuState.TickDeferred | src/kernel/core/rcu.c:137-159 | runs every finished callback of every CPU, once and in order, and wakes exactly the ready waiters, with no condition on the flag: nothing finished is ever unflagged |
| RcuProgress.OneReport | src/kernel/core/rcu.c:306-342 | with nobody inside, a context switch on a CPU is its report, and either more CPUs are awaited or the grace period is over |
| RcuProgress.Settle | src/kernel/core/rcu.c:119-342 | with no thread inside, one context switch per CPU and a tick run exactly the callbacks finished or waiting and wake every waiter; callbacks queued meanwhile wait for a grace period that is under way |
| RcuProgress.Quiesce | src/kernel/core/rcu.c:119-399 | after two such rounds every outstanding callback of every CPU has run, once and in order, nothing is left and no grace period is active |
| RunQueue.RunQueues.constructor | src/kernel/core/sched.c:452-463 | all levels empty |
| RunQueue.RunQueues.Add | src/kernel/core/sched.c:52-94 | RUNNABLE and at the end of its level, unless queued already |
| RunQueue.RunQueues.Pick | src/kernel/core/sched.c:254-276 | takes the first thread of the highest non-empty level; NIL if and only if nobody is queued; in terms of the priorities: nobody queued has a higher one, apart from those above 31 and those below 0, which count as equal |
| RunQueue.TopLevel | src/kernel/core/sched.c:53-55 | nobody queued has a higher priority than whoever is on the highest non-empty level |
| RunQueue.OrderIs | src/kernel/core/sched.c:254-276 | the order by level and arrival lists exactly the queued threads, highest level first |
| RunQueue.RunQueues.Dequeue | src/kernel/core/sched.c:211-241 | removes exactly that thread if it is queued; afterwards no pointer of the run queues leads to it |
| RunQueue.PickOrder | src/kernel/core/sched.c:254-276 | a pick takes the first in the order by priority, then arrival |
| RunQueue.RunQueues.PickReady | src/kernel/core/sched.c:318-335 | the first thread in order that can run; those before it cannot; no queued thread that can run has a higher priority |
| RunQueue.BestIs | src/kernel/core/sched.c:318-335 | the first in order that can run has the highest priority of those that can |
| RunQueue.RunQueues.Schedule | src/kernel/core/sched.c:311-388 | the next thread, RUNNING; the caller keeps the CPU if still RUNNING and nothing else is ready; no queued thread that can run has a higher priority than the one that gets the CPU |
| RunQueue.RunQueues.FinishSwitch | src/kernel/core/sched.c:282-304 | the single point where a switched-out RUNNING thread is queued again |
| WaitQueue.WaitQueueHead.constructor | src/kernel/core/waitqueue.c:57-60 | the queue is empty |
| WaitQueue.WaitQueueHead.InsertTail | src/kernel/core/waitqueue.c:21-33 | appended to the ring |
| WaitQueue.WaitQueueHead.InsertHead | src/kernel/core/waitqueue.c:36-39 | first in the ring |
| WaitQueue.WaitQueueHead.Remove | src/kernel/core/waitqueue.c:42-53 | exactly that entry leaves the ring; nothing if it is not queued |
| WaitQueue.RemovedRing | src/kernel/core/waitqueue.c:42-53 | the pointer writes leave a proper ring |
| WaitQueue.WaitQueueHead.PrepareToWait | src/kernel/core/waitqueue.c:89-109 | queued once, at the head or the tail, in the sleeping state |
| WaitQueue.WaitQueueHead.FinishWait | src/kernel/core/waitqueue.c:111-119 | RUNNING and off the queue |
| WaitQueue.WaitQueueHead.TryToWakeUp | src/kernel/core/waitqueue.c:138-149 | wakes exactly a thread that is BLOCKED or STOPPED and queues it to run |
| WaitQueue.WaitQueueHead.WakeUp | src/kernel/core/waitqueue.c:213-242 | wakes, in order, every sleeper that is not exclusive and the first exclusive one |
| WaitQueue.WakesWho | src/kernel/core/waitqueue.c:213-242 | only BLOCKED or STOPPED threads of the queue are woken, and all that are not exclusive |
| WaitQueue.WakesOneExclusive | src/kernel/core/waitqueue.c:213-242 | at most one exclusive sleeper is woken |
| WaitQueue.WakesFirstExclusive | src/kernel/core/waitqueue.c:213-242 | the first exclusive sleeper of the queue is woken |
| WaitQueue.EnqueuedAll | src/kernel/core/waitqueue.c:138-149 | everybody woken is on the run queue of its level |
| EventFd.PlainInv | src/kernel/event/eventfd.c:82-163 | preparing, checking signals, scheduling and finishing keep the invariant |
| EventFd.AttemptInv | src/kernel/event/eventfd.c:62-132 | first and repeated attempts keep it |
| EventFd.WalkInv | src/kernel/core/waitqueue.c:213-242 | beginning and ending a wake-up walk keep it |
| EventFd.VisitInv | src/kernel/core/waitqueue.c:138-149 | marking a sleeper RUNNABLE keeps it |
| EventFd.AddInv | src/kernel/core/sched.c:52-94 | queueing it keeps it |
| EventFd.StepInv | src/kernel/event/eventfd.c:62-163 | every step of every thread keeps it |
| EventFd.RunInv | src/kernel/event/eventfd.c:62-163 | it holds in every reachable state |
| EventFd.NoLostWakeup | src/kernel/event/eventfd.c:62-163 | a thread BLOCKED, switched out and on no run queue cannot go on, or somebody still owes it a wake-up; for readers and writers, in every interleaving |
| EventFd.NoLostRunnable | src/kernel/core/waitqueue.c:138-149 | a thread woken while switched out is queued or about to be |
| EventFd.QuiescentSleepers | src/kernel/event/eventfd.c:62-163 | when no wake-up is under way every sleeper really has to wait |
| EventFd.Conservation | src/kernel/event/eventfd.c:62-132 | initial value plus writes equals reads plus counter, which stays within the limit |
| EventFd.Eventfd.TryRead | src/kernel/event/eventfd.c:62-80 | EAGAIN exactly at zero; otherwise takes 1 in semaphore mode and all else; all waiting writers are woken and queued |
| EventFd.Eventfd.TryWrite | src/kernel/event/eventfd.c:120-132 | EAGAIN exactly if the sum exceeds 2^64 - 2; otherwise adds; all waiting readers are woken and queued |
| EventFdCalls.Walk | src/kernel/core/waitqueue.c:213-242 | a walk over any queue is a sequence of visits after which exactly its sleepers are woken and queued |
| EventFdCalls.GoesAhead | src/kernel/event/eventfd.c:62-132 | an attempt that goes ahead is a run of steps that changes the counter and wakes the other queue |
| EventFdCalls.TryRead | src/kernel/event/eventfd.c:62-80 | the call on the objects is a run of the step machine, failure and success, from any state that shows them |
| EventFdCalls.TryWrite | src/kernel/event/eventfd.c:120-132 | the same for writing |
| EventFdCalls.PrepareToWait | src/kernel/core/waitqueue.c:89-98 | prepare_to_wait on the objects is the prepare step |
| EventFdCalls.FinishWait | src/kernel/core/waitqueue.c:111-119 | finish_wait on the objects is the two finishing steps |
| VfsLookup.WalkAgrees | src/kernel/fs/vfs_lookup.c:15-134 | the buffer walk has the result of the recursive walk unless it overruns |
| VfsLookup.OutcomeIsMeaning | src/kernel/fs/vfs_lookup.c:15-134 | the same for whole paths, errors included |
| VfsLookup.PrefixWalk | src/kernel/fs/vfs_lookup.c:115-128 | walking a link-free prefix again from the root changes nothing |
| VfsLookup.ReachedComp | src/kernel/fs/vfs_lookup.c:34-132 | the walked prefix stays free of links |
| VfsLookup.LinkFollowed | src/kernel/fs/vfs_lookup.c:94-129 | what each case of following a link means for the text in the buffer |
| VfsLookup.OverrunIff | src/kernel/fs/vfs_lookup.c:94-129 | the walk overruns if and only if some text it would put together for a followed link is not shorter than the buffer |
| VfsLookup.MeaningIff | src/kernel/fs/vfs_lookup.c:15-134 | a lookup has the meaning of its path if and only if no such text is too long |
| VfsLookup.RoomEnough | src/kernel/fs/vfs_lookup.c:99-104 | no overrun if the path and as many targets as may be followed fit; sufficient, not necessary |
| VfsLookup.OverrunExample | src/kernel/fs/vfs_lookup.c:101-126 | a family of paths that pass the length check and overrun |
| VfsLookup.Splice | src/kernel/fs/vfs_lookup.c:106-127 | the in-place moves build prefix, target and rest exactly if they fit |
| VfsLookup.Spliced | src/kernel/fs/vfs_lookup.c:106-127 | the same for the sequence of writes |
| VfsLookup.FindChild | src/kernel/fs/vfs_lookup.c:78-91 | the first child of that name |
| VfsLookup.Component | src/kernel/fs/vfs_lookup.c:42-94 | one component: the error cases in order, dot, dot-dot, child or link; what that means for a path is stated by VfsPaths.Enter |
| VfsLookup.NextComponent | src/kernel/fs/vfs_lookup.c:34-49 | the component's bounds and whether it is the last |
| VfsLookup.Scan | src/kernel/fs/vfs_lookup.c:30-133 | one pass ends with the result or at a link with the walked prefix behind it |
| VfsLookup.Lookup | src/kernel/fs/vfs_lookup.c:15-134 | the whole call returns the meaning of the path if and only if every text put together fits, and never returns anything else; terminates by follows left and text left; what it finds in the tree is stated by VfsPaths.Enter and VfsPaths.LinkPath |
| VfsPaths.PlainPath | src/kernel/fs/vfs_lookup.c:15-134 | a path without links means the node its components lead to: dot stays, dot-dot goes to the parent or stays at the top, a name goes to the first child of that name |
| VfsPaths.Enter | src/kernel/fs/vfs_lookup.c:34-94 | behind a plain path to a node, the lookup of one more component: -36 for a name over 255, -20 if the node is no directory, the node itself for dot, its parent or itself for dot-dot, the error of a failing access check, the first child of that name, -2 if there is none, and what the target gives for a link that is followed |
| VfsPaths.LinkWalk | src/kernel/fs/vfs_lookup.c:94-129 | the walk at a link goes on with target and rest, from the root or from the directory holding the link |
| VfsPaths.LinkPath | src/kernel/fs/vfs_lookup.c:94-129 | a path through a link means the path with the link replaced by its target, an absolute one together with all before it; it differs only by -40 for too many links and -36 for texts that are too long |
| VfsPaths.OneLess | src/kernel/fs/vfs_lookup.c:26-128 | having followed a link before changes nothing but when there are too many |
| VfsPaths.FortyLinks | src/kernel/fs/vfs_lookup.c:26 | a chain of k links to a file is resolved if and only if k is at most 40, and is answered with -40 otherwise |
| Ring.P2Is | include/kernel/ring.h:29-32 | the smallest power of two not below v, up to 2^31 |
| Ring.CapacityIs | include/kernel/ring.h:39-52 | the capacity is the largest power of two that fits and divides 2^32 |
| Ring.FillIs | include/kernel/ring.h:54-58 | the masked difference of wrapped counters is the number of unread bytes |
| Ring.NoOverlap | include/kernel/ring.h:64-81 | the producer never writes over an unread byte |
| Ring.StepInv | include/kernel/ring.h:64-100 | every load, copy and publish step keeps the invariant |
| Ring.RunInv | include/kernel/ring.h:64-100 | it holds in every reachable state |
| Ring.ReadsArePrefix | include/kernel/ring.h:64-100 | in every interleaving the bytes read are a prefix of those written, across index wrap |
| Ring.Sends | include/kernel/ring.h:64-81 | from every reachable state a producer that goes on publishes exactly as much of its bytes as there is room for, one byte staying free |
| Ring.Takes | include/kernel/ring.h:83-100 | and a consumer that goes on gets exactly the oldest unread bytes, as many as it wants and there are |
| Ring.RingBuffer.constructor | include/kernel/ring.h:39-52 | empty |
| Ring.RingBuffer.Write | include/kernel/ring.h:64-81 | appends as much as fits, one byte always stays free |
| Ring.RingBuffer.Read | include/kernel/ring.h:83-100 | takes as much as is there from the front |
| Ring.Extended | include/kernel/ring.h:64-81 | the two straight copies append the bytes behind the unread ones |
| VirtQueue.Allocated | src/drivers/virtio/virtio.c:415-433 | taking n descriptors off the free chain keeps all chains disjoint and complete |
| VirtQueue.Returned | src/drivers/virtio/virtio.c:435-446 | putting a chain back does |
| VirtQueue.Pushed | src/drivers/virtio/virtio.c:450-456 | a ring entry is added at the wrapped index without losing one |
| VirtQueue.Popped | src/drivers/virtio/virtio.c:473-482 | the entry at the wrapped index is the next of the log |
| VirtQueue.Launched | src/drivers/virtio/virtio.c:450-456 | there is always room for a chain that is not in flight |
| VirtQueue.WrapIff | src/drivers/virtio/virtio.c:450-482 | a 16-bit index names the right entry for ever if and only if the size divides 65536 |
| VirtQueue.OverwriteIff | src/drivers/virtio/virtio.c:450-456 | a push into a ring with room never overwrites a waiting entry if and only if the size divides 65536 |
| VirtQueue.WrapBroken | src/drivers/virtio/virtio.c:450-456 | a ring of 3 with one waiting entry, the one at log position 65535, loses it at the next push |
| VirtQueue.Virtqueue.constructor | src/drivers/virtio/virtio.c:397-403 | all descriptors are free, for every size; the rings are sound if the size divides 65536 |
| VirtQueue.Virtqueue.Alloc | src/drivers/virtio/virtio.c:415-433 | the first n free descriptors become a chain; -1 exactly if there are too few; asking for none changes nothing and is answered with the head of the free chain |
| VirtQueue.Virtqueue.FreeChain | src/drivers/virtio/virtio.c:435-446 | the whole chain goes back in front |
| VirtQueue.Virtqueue.Submit | src/drivers/virtio/virtio.c:450-456 | appended to the submissions: the head is written to ring slot idx modulo size and the index goes up by 1 modulo 65536 |
| VirtQueue.Virtqueue.DeviceTake | src/drivers/virtio/virtio.c:450-456 | a device that reads the ring sees submissions in order, across index wrap |
| VirtQueue.Virtqueue.DeviceUse | src/drivers/virtio/virtio.c:473-482 | a device that reports a chain it holds appends it to the used log |
| VirtQueue.Virtqueue.GetUsed | src/drivers/virtio/virtio.c:473-482 | used chains in the order reported, across index wrap, from ring slot idx modulo size; -1 exactly if there is none |
| ClockSource.CalcMultShift | src/kernel/core/clocksource.c:29-47 | both loops compute the largest fitting shift and its multiplier, in 64-bit arithmetic |
| ClockSource.AccIs | src/kernel/core/clocksource.c:35-36 | the first loop computes 32 less the number of bits of the upper half of the longest interval in cycles |
| ClockSource.PickIs | src/kernel/core/clocksource.c:38-44 | the shift is the largest whose multiplier fits, 0 if none does |
| ClockSource.OverflowIff | src/kernel/core/clocksource.c:29-47 | with a shift found, no number of cycles up to the longest interval overflows if and only if that interval fits 64 bits or the multiplier is at most 1 |
| ClockSource.AccurateIff | src/kernel/core/clocksource.c:29-47 | with a shift found, any number of cycles is scaled with an error of at most cycles / 2^(shift+1) if and only if the multiplier's computation did not wrap |
| ClockSource.FoundIff | src/kernel/core/clocksource.c:38-44 | without wrap a shift is found if and only if shift 1 fits |
| ClockSource.UsableIff | src/kernel/core/clocksource.c:29-47 | over the arguments alone, if shift 32 does not wrap: a shift is found, and scales every number of cycles with an error of at most cycles / 2^(shift+1), if and only if the multiplier of shift 1 fits |
| ClockSource.TinyIff | src/kernel/core/clocksource.c:29-47 | over the arguments alone: when the multiplier found is at most 1 |
| ClockSource.SafeIff | src/kernel/core/clocksource.c:29-47 | over the arguments alone: then nothing up to the longest interval overflows if and only if that interval fits 64 bits or the multiplier is at most 1 |
| ClockSource.WrapsFirst | src/kernel/core/clocksource.c:38-44 | a shift 32 whose multiplier wrapped and seems to fit is taken, and scaling is wrong |
| ClockSource.WrapsToZero | src/kernel/core/clocksource.c:38-44 | from 1 Hz to 2^32 Hz: shift 32 with multiplier 0 |
| ClockSource.IntervalWraps | src/kernel/core/clocksource.c:32-36 | an interval of 2^64 cycles counts as none; the multiplier then overflows within it |
| ClockSource.RunsOut | src/kernel/core/clocksource.c:38-46 | a ratio for which none is found and the result is wrong |
| ClockSource.DeltaIs | src/kernel/core/clocksource.c:97-98 | masked counter differences give the true advance if and only if it is less than one period |
| ClockSource.ReadStep | src/kernel/core/clocksource.c:90-105 | a read does not go back and loses less than a nanosecond |
| ClockSource.Lag | src/kernel/core/clocksource.c:90-105 | after k reads the count is non-decreasing and lags the exact scaled total by less than k nanoseconds, across counter wraps |
| ClockSource.CalibratedGap | src/kernel/core/clocksource.c:29-105 | a source set up by the calculation can be read at any distance up to its longest interval |
| ClockSource.TracksTime | src/kernel/core/clocksource.c:29-105 | calculation and reads together: the clock's distance from true time |
| ClockSource.Registry.constructor | src/kernel/core/clocksource.c:11-22 | no source |
| ClockSource.Registry.Register | src/kernel/core/clocksource.c:50-70 | inserted behind all rated at least as high; the count starts anew exactly if it is now current |
| ClockSource.Registry.Unregister | src/kernel/core/clocksource.c:72-86 | exactly that source leaves; the count is kept if and only if no source is left or it was 0, and no later reading is below it if and only if it was 0 |
| ClockSource.GoesBack | src/kernel/core/clocksource.c:50-105 | two sources: unregistering the worse one takes the clock from 1000 to 0 |
| ClockSource.Registry.ReadNs | src/kernel/core/clocksource.c:90-105 | one read step of the current source; 0 without one |
| ClockSource.Registry.ReadAll | src/kernel/core/clocksource.c:90-105 | any number of reads is the run Lag speaks about |
| TimerFd.CountIs | src/kernel/event/timerfd.c:43-51 | a boundary is counted if and only if it is at or before the time |
| TimerFd.MillisIff | src/kernel/event/timerfd.c:104-106 | the conversion gives the milliseconds meant if and only if the nanoseconds are not negative and the result fits 64 bits |
| TimerFd.RightIff | src/kernel/event/timerfd.c:43-51 | the rounds of the loop are as many as boundaries have passed if and only if the next boundary fits 64 bits, and more otherwise |
| TimerFd.ShortFits | src/kernel/event/timerfd.c:43-51 | for intervals up to 2^63 ms it always fits |
| TimerFd.NegativeInterval | src/kernel/event/timerfd.c:104-215 | an interval of -1 s, first due at 2.5 s, read at 2.6 s: three expirations for one boundary |
| TimerFd.Timer.constructor | src/kernel/event/timerfd.c:80-89 | disarmed, nothing pending |
| TimerFd.Timer.SetTime | src/kernel/event/timerfd.c:113-183 | disarms or starts counting anew; the first boundary is the one asked for if and only if it is absolute or fits 64 bits; reports the time left to the deadline and when the timer is to fire |
| TimerFd.Timer.Rounds | src/kernel/event/timerfd.c:43-51 | the loop in 64 bits: stops at the first round whose deadline is after the time; terminates for every interval |
| TimerFd.Timer.CatchUp | src/kernel/event/timerfd.c:198-210 | adds the rounds of the loop; the count is right if and only if the next boundary fits 64 bits |
| TimerFd.Timer.Expire | src/kernel/event/timerfd.c:33-68 | catches up and starts the timer again for its deadline, which is the next boundary while the count is right |
| TimerFd.Timer.Collect | src/kernel/event/timerfd.c:198-215 | catches up, hands over and clears what is pending |
| TimerFd.Timer.Run | src/kernel/event/timerfd.c:33-215 | for any order of callbacks and reads and any times seen, read plus pending is the number of boundaries at or before the latest time if and only if the timer is one-shot or the next boundary fits 64 bits |

## Left out

- Hardware access, DMA, interrupt controllers, context switch, FPU and address spaces: foreign effects.
- Networking, epoll, inotify, futex, pty, slab, page tables and the other drivers: easier members or code with no model here.
- ext4 directory iteration, rename, mkdir, symlink creation, inode allocation, mount and superblock: they compose modelled operations.
- ext4 I/O errors, timestamps and read-ahead: outside the cached block layer, device reads and writes succeed; read-ahead is a hint to the block cache.
- Inline symlinks: mapping and truncation are for inodes whose i_block holds pointers.
- 32-bit wrap of i_blocks and of block numbers: the model's counters are unbounded where the volume is smaller than 2^32 blocks.
- Ext4Cached.Overwrite: the device works, some entry is free and every block of the range exists; allocation through the cache is not modelled.
- Ext4Cached.Read: with a failing device only that nothing changes; an index block that cannot be read makes a hole of what it maps.
- Ext4Dir.Add: names have 1 to 255 bytes, the range of the name_len field, which path lookup enforces before any name gets here; the directory is as for lookup; the listing is stated when the 32-bit directory size does not wrap.
- Ext4Dir.Lookup: for a directory whose size is a whole number of blocks and whose blocks are tiled by records or empty at their start, which every modelled operation keeps; with other lengths the source reads beyond the block, which has no meaning here.
- Ext4Dir.Remove: the same as for lookup.
- Bcache.BufferCache.Get: calls are atomic and backend writes succeed; the window between publishing an entry and reading its data is not modelled.
- Bcache.BufferCache.Dispatch: the second look into the table per block has no effect when calls are atomic.
- Bcache.BufferCache.ReadAhead: the range ends below the reserved block number; that all of it is cached afterwards is stated for a range none of which was, because a block that was cached is not moved to the front and may make room for a later one.
- Rcu.RcuState.TickDeferred: one drain per CPU at a time; callbacks that queue callbacks are separate steps of the run.
- RcuProgress.Settle: the CPUs switch context one after the other, with nobody inside a read-side section; a reader that never leaves holds up every grace period.
- VfsPaths.Enter: for paths below the length limit of 4096 and names without NUL bytes; longer paths are part of VfsLookup.Lookup.
- Rcu.CallRcuWaits: each callback head is passed to call_rcu once per run, so that it names one call.
- Memory ordering below the level of atomic steps, and destruction of objects while threads sleep on them.
- RunQueue.RunQueues.Add: priorities do not change while a thread is queued, because membership is looked up by priority.
- EventFd.NoLostWakeup: exclusive waits and the STOPPED state are not part of the protocol; signals and timeouts are wake-ups from elsewhere.
- EventFdCalls.TryRead: calls are tied to the steps one at a time, while nobody else walks a queue; the scheduler's switch is a step of the machine and a method of the run queues, the two are not tied.
- HrTimer.HrTimerBase.RunExpired: callbacks are sequences of arm and cancel calls; programming the timer hardware is not modelled.
- Ring.CapacityIs: memory of more than 2^32 bytes is not modelled.
- VirtQueue.Virtqueue.constructor: buffer addresses and lengths of descriptors are not modelled; what the rings promise is stated for sizes that divide 65536, as OverwriteIff shows it must be.
- ClockSource.Lag: the nanosecond count itself stays below 2^64.
- TimerFd.Timer.Run: the clock is below 2^63 ms, as a 64-bit counter of at least two ticks a millisecond is; the number of expirations itself is unbounded; the deadline in nanoseconds is not modelled, callbacks may come at any time.
- Clock event devices: the same sorted insertion once more.
