# A verified model of the stand-alone servers and drivers

This project models, in Dafny, the parts of the Mach source tree that keep
intricate state, and proves what they promise. Eight subsystems are covered.

**Default pager, storage layer** (`Words`, `Partition`, `BlockMap`,
`PartitionTable`, `ObjectTable`, `PagerState`, `DefaultPager`, `PagerRun`).
Paging partitions are bitmaps of 32-bit words with a free count; paging objects
have a one- or two-level map of packed (page, partition) entries. Classes and
arrays follow the C structures. One ownership invariant ties every bitmap bit to
exactly one map entry of exactly one object; on top of it `PagerRuns.Serve`
shows that any sequence of requests (create, destroy, read, read with release,
write, add a paging file, remove one) gets the replies of a map from (object,
page) to data with a known capacity: a write is refused exactly when the page is
new and the capacity is used up, and a paging file stays exactly when the others
could not hold all there is.

**Default pager, request protocol** (`RequestProtocol`, `RequestRuns`). A
transition system over any number of server threads and messages, one step for
each critical section: the sequence-number gate, reader and writer counts, and
every condition wait and broadcast. Proved over all runs: order at the gate,
reads after earlier writes, terminate and deallocation alone, no panic, no lost
wake-up, no deadlock, and that every message received is served, its work being
done once.

**Buffer heap of a network endpoint** (`BufferBlocks`, `BufferSteps`,
`BufferCoalesce`, `BufferHeap`). Boundary-tagged blocks and a doubly linked free
list, both stored in the words of the area.

**Stand-alone file system reader** (`BlockTree`, `FileBlockMap`, `FileReader`,
`Paths`, `PathLaws`, `PathBuffer`, `DirectIO`). The cached walk of the index tree, buffered
reads with holes and fragments, path resolution with links spliced into the name
buffer, which obeys a law of substitution for links, and page transfers through the list of disk blocks.

**Small-object allocator** (`SmallBlocks`, `SmallBlockParts`,
`SmallBlockRuns`, `SmallBlockCalls`). Every interleaving of threads at the unlock around the mapping
of new memory; the free lists are threaded through the freed blocks.

**LANCE transmit ring** (`TransmitRing`, `Transmitter`), **keyboard scans**
(`KeyScan`, `KeyboardHandler`) and **audio record ring** (`RecordRing`). What a
chip or an interrupt does between two accesses of the driver is an input of the
methods, so their contracts hold for every interleaving.

## What is assumed

- `vm_page_size` is a power of two from 512 bytes to 4 MB; there are fewer than
  255 partitions. A partition's size arrives as a 32-bit number of bytes, which
  is why page numbers always fit the 24-bit field and why `ptoa(free)` cannot wrap.
- Kernel calls that give memory return fresh, disjoint regions at nonzero
  addresses, and `kalloc` in the pager does not fail.
- In the storage layer a page transfer is whole and devices do not fail; `DirectIO`
  says when transfers through a paging file are whole. The layer's operations run
  under their locks, one at a time, and destroying a partition is one operation
  (its failure path leaves with the partition's lock held,
  bootstrap/default_pager.c:1872-1874).
- A request to the storage layer names an object there is, or a new port for a new
  object, and a paging file has as many pages as its size says and finds a slot
  below 255. The source panics on an unknown port and on a read outside its object;
  the other conditions it does not test.
- The kernel sends data requests and writes only between init and terminate, and
  no message after the no-senders notification. Sequence numbers do not wrap.
- File system blocks are 2K, 4K or 8K (from the size of the superblock to MAXBSIZE,
  powers of two), and index blocks hold NINDIR = size / 4 addresses.
- Disk block addresses are never -1, the mark of an empty index buffer.
- No directory has an entry with an empty name.
- `bcopy` copies low addresses first, as the comment in strfcns.c says.

## What was found

- An object whose current partition is "none" holds no page anywhere
  (`DefaultPagers.Placed`). The early return of `pager_write_offset` for such
  objects is right only because of this.
- With 8K blocks NINDIR cubed does not fit an int, so the third index level is
  never reached. The walk covers all 12 + N + N^2 + N^3 blocks exactly when the
  cube fits; every block that a 32-bit offset can name is reached in any case.
- `nc_buffer_allocate` rounds the three largest sizes to zero. With a block on the
  free list, the "split" then cuts nothing off, writes the header of an empty buffer
  where the next block begins (or behind the area), and returns that place. No blocks
  whatever fit the memory afterwards. The heap stays in order exactly when
  size + 3 < 2^32 or the free list is empty; allocation is then exact.
- An area that is no whole number of words loses its free list at the first coalesce,
  the length of its first block being no multiple of 4. The one caller asks for whole
  pages.
- The one-pass cancel of key scans is the set difference, and the strokes are those of
  the keys held in one scan only, exactly when shared codes keep their order. The strokes
  still take a listener to the right set of held keys, whatever the order.
- Page transfers stay inside their disk blocks whatever the device does exactly when
  a page is not larger than a block or a block is one record. For one schedule of the
  device they do exactly when no transfer is short before the last block of the page;
  a device that stops after one record breaks every other case.
- `pager_move_page` asks either side once only. The rest of the new page keeps what it
  held, so a page is found whole whatever was there exactly when it fits a block on
  both sides and neither transfer is short.
- A symbolic link in a path may be replaced by its text (from the directory it is
  found in, the root of the device, or another device) exactly when the text and what
  follows fit the name buffer and the new path does not need every link allowed. An
  empty text at the end of a path is the directory itself.
- A path component may be one character longer than MAXNAMLEN, as the test is written
  (bootstrap/file_io.c:646): a component is accepted exactly when it has at most
  MAXNAMLEN + 1 characters, all of seven bits.
- `audio_read` tests for a block of samples before `audio_sleep` raises the interrupt
  level. An interrupt between the two can complete the block, and the reader still
  sleeps, or is refused, with a full block buffered. Whatever the interrupts do, a wait
  never ends so exactly while recording is paused or a block is there already, and a
  call of `audio_read` exactly while recording is paused or what is buffered is at least
  a block and leaves less than a block to ask for. No wake-up is lost: the next interrupt
  that finds a block wakes the reader.

## Model

| member | source | states |
|---|---|---|
| Partitions.Partition.constructor | bootstrap/default_pager.c:421-435 | A new partition has every page free, also when its size is no multiple of 32. |
| Partitions.FirstClearBit | bootstrap/default_pager.c:561-572 | In a word that is not all ones the least clear bit is found; the second panic is unreachable. |
| Partitions.Partition.FindWord | bootstrap/default_pager.c:549-556 | With a free page left, the scan stops at a word with a clear bit inside the bitmap, all earlier pages being used; the first panic is unreachable. |
| Partitions.Partition.AllocPage | bootstrap/default_pager.c:543-577 | First fit: the least free page, below total_size, becomes used and nothing else changes; the count follows the bits. |
| Partitions.Partition.DeallocPage | bootstrap/default_pager.c:584-610 | Exactly that page becomes free again and the count follows. |
| BlockMaps.PackRoundTrip | bootstrap/default_pager.c:637-642 | The index always, and the page number exactly when it fits 24 bits, come back from a packed entry. |
| BlockMaps.PackIsNoBlock | bootstrap/default_pager.c:637-650 | A packed pair equals NO_BLOCK only for the last page of the invalid index. |
| BlockMaps.TwoLevelCoversChunks | bootstrap/default_pager.c:669-691 | Every size an object can have above 64 pages is a multiple of 64. |
| BlockMaps.DoubleUntil | bootstrap/default_pager.c:885-889 | The doubling loop ends at the least doubling that covers the request, within the doubling limit. |
| BlockMaps.PagingObject.constructor | bootstrap/default_pager.c:716-748 | A new object has no page, covers the size asked for, by less than a factor of two or less than 64 pages, in the layout its size calls for. |
| BlockMaps.PagingObject.ReadOffset | bootstrap/default_pager.c:1020-1058 | The entry of the abstract page map, in either layout, absent second-level maps reading as no block. |
| BlockMaps.PagingObject.EnsureSlot | bootstrap/default_pager.c:1316-1336 | Allocating a second-level map changes no entry. |
| BlockMaps.PagingObject.SetEntry | bootstrap/default_pager.c:1316-1402 | Exactly one entry of the abstract map changes. |
| BlockMaps.PagingObject.Extend | bootstrap/default_pager.c:866-1012 | Growth keeps every old entry and adds unassigned ones; the size covers the request tightly and stays a power of two or a multiple of 64. |
| BlockMaps.PagingObject.GrowTwoLevel | bootstrap/default_pager.c:893-924 | Two-level to larger: the page map is extended by unassigned pages. |
| BlockMaps.PagingObject.DirectToTwoLevel | bootstrap/default_pager.c:926-984 | Direct to two-level: the same. |
| BlockMaps.PagingObject.GrowDirect | bootstrap/default_pager.c:985-1012 | Direct to direct: the same. |
| PartitionTables.PartitionTable.Choose | bootstrap/default_pager.c:477-515 | A suitable partition is returned if there is one; "none" means there is none. |
| PartitionTables.PartitionTable.OnePageIsEnough | bootstrap/default_pager.c:502-502 | A partition that is not full is suitable for one page, in 32-bit arithmetic. |
| PartitionTables.PartitionTable.WholePages | bootstrap/default_pager.c:313-313 | The pages of a byte size are the one number whose pages fit while one more does not. |
| PartitionTables.PartitionTable.SearchedTwice | bootstrap/default_pager.c:2091-2099 | The two searches for a new object give the first partition with bytes enough for all of it, or else the first that is present and staying, or else none. |
| PartitionTables.PartitionTable.AllocPage | bootstrap/default_pager.c:522-577 | A fresh page of that partition is taken exactly when it is present, staying and not full. |
| PartitionTables.PartitionTable.DeallocPage | bootstrap/default_pager.c:584-610 | Exactly that page name leaves the used set. |
| PartitionTables.PartitionTable.MovePage | bootstrap/default_pager.c:1099-1155 | The data is found under a new name on another partition and the old name is free; it fails, changing nothing, only if no other partition has room. |
| PartitionTables.PartitionTable.Create | bootstrap/default_pager.c:410-468 | A partition enters the first free slot, doubling the list when full; all others and every page stay. |
| PartitionTables.PartitionTable.Find | bootstrap/default_pager.c:1788-1822 | The first slot with that id, or none when there is none. |
| PartitionTables.PartitionTable.Remove | bootstrap/default_pager.c:1858-1867 | A partition without used pages leaves the table; everything else stays. |
| PartitionTables.PartitionTable.Accounted | bootstrap/default_pager.c:567-610 | Free counts plus used page names make up the sizes of all partitions. |
| ObjectTables.ObjectTable.Extend | bootstrap/default_pager.c:866-1012 | Growing one object leaves the maps of all others as they were. |
| ObjectTables.ObjectTable.StoreEntry | bootstrap/default_pager.c:1316-1402 | Storing an entry in one object leaves the others as they were. |
| ObjectTables.ObjectTable.Insert | bootstrap/default_pager.c:1753-1761 | A new object, without pages, joins the queue. |
| ObjectTables.ObjectTable.Delete | bootstrap/default_pager.c:1774-1781 | An object leaves the queue; the others stay. |
| PagerState.ExactlyOneOwner | bootstrap/default_pager.c:637-642 | An allocated page is named by one and only one map entry, and no other page is named. |
| PagerState.PagesCounted | bootstrap/default_pager.c:770-804 | Pages held by all objects are as many as pages used in all partitions. |
| PagerState.AssignKeepsOwned | bootstrap/default_pager.c:1278-1400 | Giving a fresh page to an empty entry keeps ownership and all contents. |
| PagerState.ReleaseKeepsOwned | bootstrap/default_pager.c:1065-1089 | Releasing a page keeps ownership and forgets that page's contents only. |
| PagerState.MoveKeepsOwned | bootstrap/default_pager.c:1099-1155 | Moving a page to another place keeps ownership and all contents. |
| PagerState.GrowKeepsOwned | bootstrap/default_pager.c:866-1012 | Growing an object keeps ownership and all contents. |
| PagerState.PutKeepsOwned | bootstrap/default_pager.c:1624-1679 | Writing a page an entry owns changes the contents of that entry only. |
| PagerState.ForgetKeepsOwned | bootstrap/default_pager.c:1416-1461 | An object without pages can go. |
| PagerState.AvoidedIsEmpty | bootstrap/default_pager.c:1471-1518 | A partition that no entry names has no used page. |
| DefaultPagers.DefaultPager.BitsAreOwned | bootstrap/default_pager.c:522-610 | A bit of a bitmap is set exactly when it is below total_size and some entry of some object names that page; two entries never name one page. |
| DefaultPagers.DefaultPager.PagesAccounted | bootstrap/default_pager.c:770-804 | Free pages plus pages held by objects are the pages of all partitions. |
| DefaultPagers.DefaultPager.FullIsCapacity | bootstrap/default_pager.c:477-515 | When no partition has a free page, as many pages are stored as all partitions have. |
| DefaultPagers.DefaultPager.NoRoomWithout | bootstrap/default_pager.c:1471-1518 | When a page of one partition has nowhere else to go, more is stored than all other partitions can hold. |
| DefaultPagers.DefaultPager.ReleaseOffset | bootstrap/default_pager.c:1065-1089 | Exactly one page of one object is gone. |
| DefaultPagers.DefaultPager.WriteOffset | bootstrap/default_pager.c:1256-1409 | The entry exists afterwards, or no partition present and staying has a free page; no contents change. |
| DefaultPagers.DefaultPager.HasPage | bootstrap/default_pager.c:1682-1687 | True exactly for pages that hold data. |
| DefaultPagers.DefaultPager.Read | bootstrap/default_pager.c:1537-1620 | The data of the page or "absent"; with release the page is gone afterwards, and only it. |
| DefaultPagers.DefaultPager.Write | bootstrap/default_pager.c:1624-1679 | The store holds the data at that place and is otherwise unchanged; it fails, changing nothing, only when everything is full and the page held no data. |
| DefaultPagers.DefaultPager.DestroyObject | bootstrap/default_pager.c:1416-1461 | Exactly the object's pages are gone. |
| DefaultPagers.DefaultPager.CreateObject | bootstrap/default_pager.c:2071-2103 | A new, empty object of the least size it can have for its bytes, so that every whole page of them has an entry, in the best partition for it; contents unchanged. |
| DefaultPagers.DefaultPager.CreatePartition | bootstrap/default_pager.c:410-468 | The free slot gets a partition of as many pages as the bytes given hold, and not one more; contents unchanged. |
| DefaultPagers.DefaultPager.RelocateEntry | bootstrap/default_pager.c:1471-1518 | One entry names a page of another partition, contents unchanged, or nothing changes because there is no room. |
| DefaultPagers.DefaultPager.Relocate | bootstrap/default_pager.c:1471-1518 | No entry of the object names the partition any more, nor does its current partition; on failure contents and ownership still hold. |
| DefaultPagers.DefaultPager.DestroyPartition | bootstrap/default_pager.c:1788-1875 | Contents of all objects unchanged whatever the outcome; on success nothing names the partition and its bitmap is empty; on failure it stays and is used again, and no other partition has room; an unknown id changes nothing. |
| PagerRuns.Handle | bootstrap/default_pager.c:1524-1875 | The reply and the new state of every request are those of a map from (object, page) to data with the capacity of the partitions there are; removing a partition succeeds exactly when the others hold all that is stored. |
| PagerRuns.NeverOverfull | bootstrap/default_pager.c:522-577 | After any requests no more pages are stored than the partitions have. |
| PagerRuns.StoreHoldsLastWritten | bootstrap/default_pager.c:1524-1679 | After any requests the map holds, for each page, the data last written and acknowledged, unless released or destroyed since. |
| PagerRuns.ReadsReturnLastWritten | bootstrap/default_pager.c:1537-1679 | In any sequence of correctly answered requests a read returns what was last written, or absent. |
| PagerRuns.Serve | bootstrap/default_pager.c:1524-1875 | Any sequence of requests gets the replies, and leaves the state, of that bounded map, up to the first request that is not as assumed. |
| RequestProtocol.StepKeepsInv | bootstrap/default_pager.c:1898-2015 | Every critical section of every thread keeps order, separation, exact reader and writer counts and due wake-ups. |
| RequestRuns.RunKeepsInv | bootstrap/default_pager.c:1898-2670 | The invariant holds in every state of every run. |
| RequestRuns.GateInOrder | bootstrap/default_pager.c:1898-1920 | In every run messages pass the gate in sequence-number order, each once and after all earlier ones have unlocked. |
| RequestRuns.ReadsFollowWrites | bootstrap/default_pager.c:2457-2545 | Once a data request has passed, no write with a smaller number is in progress. |
| RequestRuns.TerminateIsAlone | bootstrap/default_pager.c:2303-2351 | When terminate clears the ports no read and no write is in progress. |
| RequestRuns.DeallocIsAlone | bootstrap/default_pager.c:2380-2425 | The deallocation after the no-senders notification never overlaps a read or a write. |
| RequestRuns.NeverPanics | bootstrap/default_pager.c:2270-2278 | The tests that the request port is unset never fail. |
| RequestRuns.NoDeadlock | bootstrap/default_pager.c:1898-2015 | Until every message received is handled some thread can run: no lost wake-up. |
| RequestRuns.InternalLowers | bootstrap/default_pager.c:1898-2015 | Every step of a thread lowers a measure, so threads cannot run forever without new messages. |
| RequestRuns.WorkedOnce | bootstrap/default_pager.c:1898-2670 | In every run a message is past its work exactly if its own thread has done it: the port set by init, or cleared by terminate with all name references there and no read or write left, or a read, write or deallocation ended that was in progress. It does so once. |
| RequestRuns.PortChanges | bootstrap/default_pager.c:2275-2344 | The request port is set by init and cleared by terminate in that very step, and by nothing else. |
| RequestRuns.EveryRequestIsServed | bootstrap/default_pager.c:1898-2670 | A run of the threads alone can last only a bounded number of steps, and when no thread can step every message is done and has done its work, once. |
| BufferBlocks.ExactCover | kernel/chips/nc.c:559-565 | Every word of the area belongs to exactly one block. |
| BufferSteps.FreedKeeps | kernel/chips/nc.c:700-713 | Freeing a block keeps tiling, headers and the doubly linked list, now with the block in front. |
| BufferSteps.TakenKeeps | kernel/chips/nc.c:683-689 | Unlinking a block keeps the list of the others and every word of the buffers in use. |
| BufferSteps.SplitKeeps | kernel/chips/nc.c:690-695 | Splitting keeps tiling, list and every word of the buffers in use. |
| BufferSteps.WrappedSplitBreaks | kernel/chips/nc.c:690-695 | Once the header of an empty buffer stands where a block begins, no blocks and no set of used ones fit the memory. |
| BufferCoalesce.MergeKeeps | kernel/chips/nc.c:629-635 | Merging two neighbours keeps tiling, the list built so far and the buffers in use. |
| BufferCoalesce.PushKeeps | kernel/chips/nc.c:636-641 | Listing a block keeps all that and extends the part already coalesced. |
| BufferCoalesce.RoomIsABlock | kernel/chips/nc.c:674-679 | When no two free blocks are neighbours, that many free words in a row exist exactly when one free block is that long. |
| BufferHeap.RoundUpCovers | kernel/chips/nc.c:660-663 | The rounded size covers the request, tightly, exactly when size + 3 does not wrap. |
| BufferHeap.AreasAreWhole | kernel/chips/nw_mk.c:229-232 | Areas are whole words, cover the size tightly, and hold a header exactly when rounding their size does not wrap. |
| BufferHeap.CutsKeepRemainder | kernel/chips/nc.c:660-663 | Arithmetic alone: cutting rounded sizes off a length keeps its remainder modulo 4. |
| BufferHeap.Heap.SplitNothing | kernel/chips/nc.c:690-695 | With a size of zero the first listed block stays as it is, an empty buffer is marked where the next one begins or behind the area, and the heap is out of order. |
| BufferHeap.Heap.constructor | kernel/chips/nc.c:559-566 | The area starts as one free block of its size in bytes: a heap in order exactly when that is a whole number of words, else one whose first length is no multiple of 4. |
| BufferHeap.Heap.Coalesce | kernel/chips/nc.c:617-650 | No two free blocks stay neighbours, the list holds all free blocks, the buffers in use keep place, length and contents; it terminates. When the first length is no multiple of 4 the free list is lost and nothing is written. |
| BufferHeap.Heap.Allocate | kernel/chips/nc.c:653-698 | For every size: the heap stays in order exactly when size + 3 does not wrap or the free list is empty. In order, NULL exactly when no run of free words is long enough; otherwise a block that was free, of that length with less than a header to spare, all other buffers untouched. |
| BufferHeap.Heap.Deallocate | kernel/chips/nc.c:700-713 | The buffer is free again, at the head of the list; the others are untouched. |
| BufferHeap.Heap.Fill | kernel/chips/nc.c:746-765 | What an owner writes into its buffer disturbs neither blocks nor list. |
| BufferHeap.AllocationTakes | kernel/chips/nc.c:683-697 | An allocation takes exactly the words of the new buffer. |
| BlockTree.PathOfBlock | bootstrap/file_io.c:222-247 | Every file block below 12 + N + N^2 + N^3 lies at the end of its path. |
| BlockTree.BlockOfPath | bootstrap/file_io.c:222-247 | Every path with indices below N is the one to the block at its end: the correspondence is one to one. |
| BlockTree.WalkInFull | bootstrap/file_io.c:210-370 | The walk spelled out by the number of the block: a direct address, or the entries of one, two or three index blocks; a hole or an unreadable block on the way ends it. |
| FileBlockMap.WholeTreeReached | bootstrap/file_io.c:527-539 | All blocks of the tree are reached exactly when NINDIR cubed fits an int. |
| FileBlockMap.EveryOffsetReached | bootstrap/file_io.c:377-398 | Every 32-bit offset lies in a block that is reached, for each block size. |
| FileBlockMap.File.constructor | bootstrap/file_io.c:516-542 | The table of block counts, products wrapping as an int does, and clear buffers. |
| FileBlockMap.File.BlockMap | bootstrap/file_io.c:210-370 | Whatever the buffers hold from earlier calls, the answer is that of a plain walk: block, hole, device error or not in file. |
| FileBlockMap.File.Descend | bootstrap/file_io.c:286-355 | The descent through buffers follows the indices of the block, each below NINDIR. |
| FileReader.InsideBlock | bootstrap/fs.h:417-452 | A byte of the file lies inside its block even when that is made of fragments, and no fragment is read that holds nothing of the file. |
| FileReader.Contents.BytesOnDisk | bootstrap/file_io.c:377-443 | A byte of the file is the one at its place in the disk block of its number, or zero in a hole. |
| FileReader.Reader.BufRead | bootstrap/file_io.c:377-443 | All bytes from the offset to the end of its block, as if that were whole, or of the file if that comes first; holes read as zeros; whatever block was buffered. |
| FileReader.Reader.ReadFile | bootstrap/file_io.c:815-848 | Success exactly when the size is zero or the range lies in the file; all bytes up to the end of the file are delivered and no other byte of the target changes. |
| Paths.AcceptedParts | bootstrap/file_io.c:638-653 | Exactly which components are accepted, too long, or invalid. |
| Paths.OneTooLongIsAccepted | bootstrap/file_io.c:646-646 | The limit MAXNAMLEN is kept for every component but those of one character more. |
| Paths.LinksAreFollowed | bootstrap/file_io.c:618-773 | What is opened is never a symbolic link itself, root directories being none. |
| PathLaws.DeviceNames | bootstrap/file_io.c:587-613 | A path has to begin with /dev/ and a device there is; the device alone is opened raw. |
| PathLaws.PlainNamesLeadDown | bootstrap/file_io.c:624-673 | A path whose components lead from the root of a device down to a node, none of them being a link, opens that node. |
| PathLaws.OnlyDirectoriesLeadOn | bootstrap/file_io.c:626-630 | A path that goes on behind a node that is no directory fails so. |
| PathLaws.PartsThatFail | bootstrap/file_io.c:638-667 | Behind a directory, exactly which error a component gives that is too long, invalid or not there. |
| PathLaws.LinkIsItsText | bootstrap/file_io.c:678-768 | For whole paths: a link and what follows it open what one of three paths opens with one link less allowed: text and rest if they begin with /dev/; those on the same device if they begin with a slash; else those behind the directory of the link. The exceptions are that the two do not fit the buffer, that no link is allowed any more, and that both are empty. |
| PathLaws.MoreLinksAllowed | bootstrap/file_io.c:687-688 | Allowing more links changes the outcome only of a path that failed for too many. |
| PathLaws.TextMayReplaceLink | bootstrap/file_io.c:678-768 | A path and the one with the link replaced by its text open the same exactly when the two fit the buffer and the second does not need every link allowed; where they do not fit, when the second fails as too long as well. |
| PathLaws.EveryNameIsSettled | bootstrap/file_io.c:618-768 | Every path on a device is a way down without links followed by nothing, by a component that fails or by a link, so that one of these laws gives its outcome. |
| PathBuffer.OverlappingCopy | bootstrap/strfcns.c:91-107 | The target gets the old source bytes for every overlap, and nothing else changes. |
| PathBuffer.Splice | bootstrap/file_io.c:674-719 | The name buffer holds exactly link text, unresolved remainder and NUL, in bounds. |
| PathBuffer.HasPrefix | bootstrap/strfcns.c:75-85 | True exactly for names with that prefix. |
| PathBuffer.CheckComponent | bootstrap/file_io.c:638-653 | The component ends where it should; it is accepted exactly when it has at most MAXNAMLEN + 1 characters, all of seven bits, and too long exactly when the first so many are. |
| PathBuffer.OpenFile | bootstrap/file_io.c:560-788 | Resolution in the one buffer terminates and gives the outcome that the laws of PathLaws fix, with the same errors. |
| DirectIO.AlwaysFitsExactly | bootstrap/file_io.c:1207-1300 | The pieces of a page stay in their disk blocks, whatever the device does, exactly when a page is no larger than a block or a block is one record. |
| DirectIO.PageFits | bootstrap/file_io.c:1207-1300 | For one behaviour of the device they do exactly when no transfer is short before the last block of the page. |
| DirectIO.ShortTransferOverruns | bootstrap/file_io.c:1235-1244 | For every page of several blocks of several records, one short transfer makes a request leave its block. |
| DirectIO.DirectFile.HomeIsListed | bootstrap/file_io.c:1193-1241 | A record of a paging file lies in the listed disk block of its file block, at the same place in it; a record of a raw device where it is. |
| DirectIO.DirectFile.HomesDiffer | bootstrap/file_io.c:1193-1199 | Different records of a paging file lie in different records of the device. |
| DirectIO.DirectFile.WritePage | bootstrap/default_pager.c:1653-1679 | Unless a transfer is short before the last of several blocks, exactly the device records of the page are written, whatever pieces the device makes of it. |
| DirectIO.DirectFile.ReadPage | bootstrap/default_pager.c:1564-1599 | Under the same condition the records of the page, in order, are read. |
| DirectIO.DirectFile.OtherPagesKept | bootstrap/default_pager.c:1653-1679 | Writing one page leaves every other page as it was. |
| DirectIO.MovePage | bootstrap/default_pager.c:1124-1149 | What one read and one write move is found at the new place; the rest of the new page and all other pages of both files keep their records, on one disk or two. |
| DirectIO.RestIsOld | bootstrap/default_pager.c:1124-1149 | The page is found whole exactly when the rest of the new page already held its records. |
| DirectIO.MovedWhole | bootstrap/default_pager.c:1124-1149 | Every page is found whole at the new place exactly when it fits a block on either side and neither transfer is short. |
| SmallBlockRuns.StepKeepsInv | bootstrap/kalloc.c:191-333 | Every step of every thread keeps blocks, tail, wasted bytes, regions in hand and free lists apart and complete. |
| SmallBlockRuns.NeverHeldBack | bootstrap/kalloc.c:191-333 | Any step a thread can take leads on: no list head is ever found that the step could not use. |
| SmallBlockRuns.RunKeepsInv | bootstrap/kalloc.c:159-333 | So does every run, from initialisation on. |
| SmallBlockRuns.BlocksApart | bootstrap/kalloc.c:191-333 | No two blocks, in use or free, share a byte. |
| SmallBlockRuns.EveryByteAccounted | bootstrap/kalloc.c:191-252 | Mapped bytes are live, free, in hand, in the tail or counted as wasted, each once. |
| SmallBlockRuns.LiveBlocks | bootstrap/kalloc.c:191-333 | A step adds the block it hands out, which was not live, removes the one returned, and changes no other. |
| SmallBlockRuns.ContentsKept | bootstrap/kalloc.c:304-333 | The allocator never writes into a block in use. |
| SmallBlockRuns.OneRegionIsEnough | bootstrap/kalloc.c:197-246 | A call that has been given a region ends without asking for another. |
| SmallBlockRuns.AdoptKeeps | bootstrap/kalloc.c:225-241 | Installing a region extends the tail or replaces it, counting the rest as wasted. |
| SmallBlockRuns.FindClass | bootstrap/kalloc.c:265-275 | The least size class that holds the request. |
| SmallBlockRuns.ClassIsUnique | bootstrap/kalloc.c:304-333 | Freeing with the size of the allocation finds the same class. |
| SmallBlockCalls.BlockIsOfClass | bootstrap/kalloc.c:265-293 | In every run, whoever asked for a block of a class and is handed one, from the free list, the tail or a new region, gets a block that was not in use, is as long as that class, and owns as many bytes as were asked for when the class was looked up. |
| SmallBlockCalls.OwnedUntilReturned | bootstrap/kalloc.c:191-333 | It owns them, in a block of the same length, until that block is given back. |
| SmallBlockCalls.ServedOnce | bootstrap/kalloc.c:191-252 | One call is handed one block. |
| SmallBlockCalls.CallsAreAnswered | bootstrap/kalloc.c:191-252 | A call ends having been handed a block, or because the kernel has no memory. |
| SmallBlockCalls.LargeIsOwned | bootstrap/kalloc.c:296-300 | A large block is as long as what was asked of the kernel, all of it owned. |
| SmallBlockCalls.RegionIsPages | bootstrap/kalloc.c:202-202 | A new region is the least number of whole pages that hold the block. |
| TransmitRing.TestsAgree | kernel/chips/lance.c:1043-1043 | With at most 15 requests in the ring, the two loop tests agree; with 16 they would not. |
| TransmitRing.Added | kernel/chips/lance.c:1275-1313 | A request given to the chip extends the window and nothing else. |
| TransmitRing.Removed | kernel/chips/lance.c:1056-1062 | Releasing the first slot leaves the rest of the window in place. |
| TransmitRing.RestartFindsWindow | kernel/chips/lance.c:776-783 | The slots hold exactly the requests in flight, wherever the window starts. |
| TransmitRing.NoneLostOrDoubled | kernel/chips/lance.c:1028-1118 | Every dequeued request is finished once or still in the ring. |
| Transmitter.Interface.Chip | kernel/chips/lance.c:1046-1054 | The chip gives up exactly the descriptors it owned among those it moves, with their error bits, without disturbing the ring. |
| Transmitter.Interface.Start | kernel/chips/lance.c:1264-1322 | As many queued requests as fit move to the ring, in order, the ring holding at most 15. |
| Transmitter.Interface.TransmitInterrupt | kernel/chips/lance.c:1028-1118 | The oldest requests are finished in the order they were dequeued, one for each descriptor that the chip has given up by the time it is looked at, its moves being given; the driver restarts exactly after one whose error disables the transmitter, and then all dequeued requests are finished; else it stops at the first descriptor the chip still owns, or empties the ring and fills it from the queue. |
| Transmitter.Interface.Restart | kernel/chips/lance.c:751-791 | Every request in flight is finished, each once. |
| Transmitter.Interface.Init | kernel/chips/lance.c:796-855 | The ring is consistent again and takes what is queued; nothing is finished twice. |
| Transmitter.Interface.Drive | kernel/chips/lance.c:751-1322 | Over any sequence of events, requests that arrived are queued or dequeued in order, and dequeued ones are finished once or in flight, since the last restart in the order they were dequeued; nothing is left queued with the ring empty. |
| KeyScan.PassIsDifference | kernel/chips/dtop_handlers.c:349-373 | For scans without repetition the cancelling pass computes both set differences exactly when shared codes keep their order. |
| KeyScan.SwappedKeysFail | kernel/chips/dtop_handlers.c:349-373 | Two keys in the other order: one is not cancelled. |
| KeyboardHandler.StrokesTrackKeys | kernel/chips/dtop_handlers.c:326-468 | The strokes of a scan take a listener from the old set of held keys to the new one. |
| KeyboardHandler.StrokesExactly | kernel/chips/dtop_handlers.c:349-468 | For scans without repetition the strokes are an up for each key held in the last scan only and a down for each in the new one only, in their order, exactly when shared codes keep their order. |
| KeyboardHandler.OnlyChangedKeys | kernel/chips/dtop_handlers.c:349-468 | For scans without repetition whose shared codes keep their order, a key is released exactly when only the last scan holds it and pressed exactly when only the new one does. |
| KeyboardHandler.StrokesOldestFirst | kernel/chips/dtop_handlers.c:377-452 | All upstrokes come before all downstrokes; the codes of the ups stand in the last scan at places ever closer to its front, those of the downs so in the new scan. |
| KeyboardHandler.EachOnce | kernel/chips/dtop_handlers.c:377-452 | Of scans without repetition no stroke is given twice. |
| KeyboardHandler.Keyboard.Cancel | kernel/chips/dtop_handlers.c:349-373 | The loops over the two arrays compute the pass. |
| KeyboardHandler.Keyboard.Receive | kernel/chips/dtop_handlers.c:297-468 | Upstrokes, then downstrokes, each kind from the end of its scan on, and the saved scan is the uncancelled new one; error packets and a return from the debugger as in the source. |
| RecordRing.LengthAndFull | kernel/chips/audio_defs.h:68-76 | The length macro counts the buffered samples, and the full test holds at 4095. |
| RecordRing.RecordBuffer.Interrupt | kernel/chips/audio.c:568-585 | A sample is accepted, dropped or paused, and counted so; no buffered sample changes; a sleeping reader is woken exactly when as many samples are buffered as it waits for. |
| RecordRing.RecordBuffer.Interrupts | kernel/chips/audio.c:568-585 | Of any samples that arrive, those that fit are buffered in order, none while paused; a sleeping reader is woken exactly when they leave it as many as it waits for. |
| RecordRing.RecordBuffer.Copy | kernel/chips/audio.c:296-310 | The bytes copied are the accepted samples in order, with interrupts between any two of them. |
| RecordRing.RecordBuffer.Wait | kernel/chips/audio.c:280-290 | With all interrupts given, how the wait ends and what is buffered then: a block was there at the first test; or the reader is refused; or it sleeps until an interrupt finds a block, or still. |
| RecordRing.WaitsWellExactly | kernel/chips/audio.c:280-290 | No interrupts whatever can end the wait refused or asleep with a block buffered exactly when recording is paused or a block is buffered before. |
| RecordRing.ReadsWellExactly | kernel/chips/audio.c:258-314 | The same of a whole call exactly when recording is paused, or at least a block is buffered and less than a block would be left to ask for. |
| RecordRing.ReadingGives | kernel/chips/audio.c:279-314 | A call gives no more than asked for; if it gives anything but not all, at least what was buffered before; when it succeeds it leaves less than a block; it is refused or sleeps only if what was buffered before it left the reader less than a block. |
| RecordRing.RecordBuffer.Read | kernel/chips/audio.c:258-314 | With all interrupts given, how the call ends; the reader gets the samples that come next, in order and without gap. |

## Left out

- Mach IPC, port rights and renaming, message demultiplexing, thread wiring, replies and the object reporting calls: foreign calls.
- The offsets reported by `pager_pages`: the advances stand outside the entry loops, so only the count of pages means anything.
- Growth of one object by two threads at once: the lock is dropped before `pager_extend`; operations run one after the other here.
- `overcommitted` and `no_paging_space`: statistics and waiting for more room.
- `part_id`: ids of paging files are parameters, so removing finds the first partition with an id.
- PagerRuns.Serve: page transfers are whole; a paging file whose blocks are smaller than a page is covered by `DirectIO` alone.
- RequestProtocol.StepKeepsInv: name references are a flag (all there, or some fetched by `default_pager_objects`), since only the wait for them matters.
- The free list of endpoints and the host table of nc.c: known to lose integrity, nothing is claimed of them.
- BufferHeap.Heap.constructor: areas shorter than a header, where the header itself is written past the end, and areas of 2^31 bytes or more, which the 31-bit length does not hold; the one caller passes whole pages (AreasAreWhole).
- BufferHeap.CutsKeepRemainder: buffers cut off an area that is no whole number of words lie at odd addresses, which a memory of words does not have.
- BufferHeap.Heap.SplitNothing: what later calls do to a heap that is out of order.
- FileBlockMap.File.BlockMap: the lock dropped during a device read is not modelled; calls come one after the other, and a device answers the same way each time.
- FileReader.Reader.ReadFile: every part of the file can be read; after a device error the source keeps stale buffer state.
- PathBuffer.OpenFile: searching a directory block by block is a map from names to inodes, and the NUL put behind a component during the look-up is not written; a path longer than the buffer is not accepted, as the source does not check it.
- `add_file_direct` building its list: the list is given; its addresses are multiples of the fragments in a block, distinct unless zero.
- SmallBlockRuns.RunKeepsInv: words are aligned and addresses do not reach 2^32 less a block; racing first calls of `kalloc_init` are not modelled.
- The receive side of the LANCE driver, looping packets back to the host, and counters of errors.
- KeyboardHandler.Keyboard.Receive: translation by `lk201_input` is a foreign call; the codes for which it returns from the debugger are a parameter. Autorepeat is not modelled.
- DirectIO.DirectFile.WritePage: where a request runs past its block, what it then writes there.
- RecordRing.RecordBuffer.Read: pausing, resuming or flushing by another thread while a reader is in the call, and the play side, whose head moves before the sample is read.
- Clocks, displays, serial lines, floppy, program loaders and autoconfiguration tables.
