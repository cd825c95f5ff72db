# Virtual Reflections OS: a verified model

These Dafny files model the stateful algorithms at the core of the kernel and of the Minesweeper program, and
prove what they keep over whole runs. Classes stand for the objects the C++ code updates in place; beside each of
them a specification on values carries the lemmas.

| files | what they model |
|---|---|
| `heap*.dfy` | the block-list heap: one list over a fixed table that tiles an address range (first fit, growth, freeing and merging, aligned allocation) |
| `bits.dfy`, `bitmap.dfy`, `physical_memory.dfy` | alignment arithmetic, the page bitmap, and the first-fit page allocator with its blind 2 MB reservation |
| `paging.dfy`, `page_tables.dfy`, `page_access.dfy`, `vmem.dfy` | the recursive slot under the hardware walk, the three-level tables as a page map with its access rights, and the mapper that edits them in place |
| `kernel_memory.dfy` | both layers together: page tables in frames of the bitmap, and large pages on physical ranges of their own |
| `words.dfy`, `addresses.dfy`, `kernel_heap.dfy` | the heap over those layers, down to the byte of physical memory behind an address |
| `linear_map.dfy`, `scheduling.dfy`, `scheduler.dfy` | the thread table and the scheduler that shrinks it while it scans |
| `tcp_protocol.dfy`, `tcp_delivery.dfy`, `tcp.dfy` | the TCP client against a network that loses, repeats and reorders |
| `checksum.dfy` | the Internet checksum in native and in network order |
| `dns_names.dfy`, `dns_encoding.dfy`, `dns.dfy` | host names with compression pointers |
| `dhcp.dfy` | the DHCP option writer and reader |
| `ring_buffer.dfy`, `nvme.dfy` | the ring shared by interrupt handlers and threads, and the NVMe queue pair with its phase bit |
| `minesweeper_board.dfy`, `minesweeper.dfy` | board creation, the recursive reveal, and the click handlers |
| `options.dfy`, `bytes.dfy`, `arithmetic.dfy` | shared types and division facts |

Hardware, the network, the clock and the random engine are parameters or free choices. 64-bit page-table
arithmetic is done on bit vectors, sequence numbers and checksums with explicit widths.

Some natural properties are false of the code. The model keeps the code as it is and proves exactly when they hold:

- `heap_free` ends the allocation it is given unless a zero-size block stands before it
  (`HeapLayout.FreeEndsExactly`). A request of no bytes leaves such a block (`Heaps.ZeroRequestLeaks`), and so does a
  DMA donor that fits exactly (`HeapSteps.WholeCutLeaks`).
- Freeing leaves no two free neighbours unless the block stood between two free ones, of which it joins the front one
  only (`HeapMerging.SettledExactly`).
- A heap made for a user process grows by pages that only the kernel may use: user code reaches an address of the heap
  if and only if it was mapped at the start (`KernelHeap.PagedHeap.AccessGranted`).
- A new page table changes no mapping if and only if no page is mapped through its frame
  (`PageTables.MappingsSurviveExactly`). Without free pages the mapper takes frame 0 for a table. Once, that is a fresh
  frame; a second time it erases what led through it, and where it would be its own parent the mapper faults.
- A FIN is answered soundly only where it ends right at the receiver (`TcpProtocol.FinAckSound`). A reset is judged
  by the peer's window instead of the receive window of section 3.10.7.4 of RFC 9293; the two agree exactly under the
  condition of `TcpProtocol.ResetMeetsWindow`. So one at the very next number is ignored when its own window field is
  0, and one far outside the receive window closes the connection (`TcpProtocol.ResetsMistreated`).
- A TCP client gets the whole stream exactly when the network brings its pieces in order, as long as the peer resends
  in the same pieces (`TcpDelivery.StreamArrivesExactly`). A peer that cuts the stream anew can bring every byte in
  order and lose the last (`TcpDelivery.NewPiecesLoseByte`).
- A TCP send of more than 1480 bytes is cut after its checksum was taken. The receiver refuses it unless the part cut
  off vanishes modulo 0xFFFF (`Checksum.TcpArrives`), and the bytes are never sent (`TcpProtocol.WireCarriesAccepted`).
- The DNS decoder computes the expansion of a name within 254 characters and 254 steps
  (`DnsNames.DecodesExpansionExactly`). It takes an endless walk for a name, because its step counter wraps before it
  is looked at, and accepts names without terminator (`DnsNames.SelfPointerIsRoot`, `DnsNames.UnterminatedAccepted`).
- A DHCP option is read back if and only if it has a code of its own and at most 255 bytes, as long as the options
  before it do (`Dhcp.FindsFirst`); one with the end code hides every code behind it (`Dhcp.EndHides`).
- An NVMe completion is sure to be that of the command just submitted if and only if the queue was quiet
  (`Nvme.MatchExactlyWhenQuiet`). After a timeout the earlier command's answer is taken for the next one's
  (`Nvme.LateAnswerTaken`).
- A Minesweeper click on a bomb is declared a win if and only if as many safe tiles are hidden as there are unmarked
  bombs (`MinesweeperBoard.BombClickWins`); in every configuration of the game there is such a game, from the
  drawing of the bombs on (`Minesweeper.LosingGame`).

## Model

| member | source | states |
|---|---|---|
| Heaps.Heap.constructor | src/kernel/src/memory/heap.cpp:66-80 | a new heap is one free block over its whole range, in slot 0, with every other slot unused |
| Heaps.Heap.FilterBlocks | src/kernel/src/memory/heap.cpp:20-46 | the result is full exactly when every filter found a block; each entry is the first block in table order that its filter accepts and no earlier filter took |
| Heaps.Heap.Expand | src/kernel/src/memory/heap.cpp:83-112 | whatever the page layer maps, none included, is appended as a free block behind the heap; the list stays an acyclic tiling of the larger range, one unused slot is consumed, no allocation changes, and it fails only when no slot is unused |
| Heaps.Heap.Alloc | src/kernel/src/memory/heap.cpp:114-164 | terminates for every behaviour of the page layer; adds exactly one allocation of the requested size to the live ones, the end of the first fitting block, and keeps the tiling; the heap grows only while no block fits, and what is then obtained are the last bytes of the grown heap; null only when no table slot is left, and then only the last block can fit, and not exactly |
| HeapMerging.ObtainedAtEnd | src/kernel/src/memory/heap.cpp:146-163 | where nothing fitted, the heap has grown by the request at least and hands out its new end |
| Heaps.Heap.Free | src/kernel/src/memory/heap.cpp:166-185 | the block list becomes the one-pass merge of the list with the first block at the address marked free, which the HeapMerging rows say more about; the tiling is kept |
| HeapMerging.FreeMergesExactly | src/kernel/src/memory/heap.cpp:166-185 | in a heap without empty blocks and free neighbours the block freed joins a free block in front of it, or else a free block behind it, into one block over both ranges; nothing else changes |
| HeapMerging.SettledExactly | src/kernel/src/memory/heap.cpp:175-184 | free neighbours remain if and only if the block stood between two free ones |
| HeapMerging.FreeUndoes | src/kernel/src/memory/heap.cpp:114-185 | freeing an allocation at once gives back the very list from before it |
| Heaps.AllocFreeRestores | src/kernel/src/memory/heap.cpp:114-185 | the same on the heap: allocating what it can serve and freeing it restores list and size |
| Heaps.Heap.MergeFree | src/kernel/src/memory/heap.cpp:175-184 | the merging loop is the one-pass coalescing of the list, in which a block merged into is not looked at again |
| Heaps.Heap.DmaAlloc | src/kernel/src/memory/heap.cpp:187-263 | for a power-of-two alignment the address is a multiple of it, and the block is the end of the first block that fits size and alignment, cut to more than the size and at most size plus alignment, the rest of the cut becoming a free filler; the list stays an acyclic tiling of the unchanged range; it refuses only for an unaligned size, fewer than two unused slots, or no fitting donor |
| Heaps.Heap.PadFront | src/kernel/src/memory/heap.cpp:240-260 | the filler takes over the front of the new block: list order, addresses and total size stay consistent and only that block's span changes |
| Heaps.Heap.MallocAligned | src/kernel/src/memory/heap.cpp:422-432 | the result is aligned, it and its bytes lie inside one fresh allocation, and the word in front of it holds that allocation's address; null only when no table slot is left |
| Heaps.Heap.FreeAligned | src/kernel/src/memory/heap.cpp:434-437 | in a heap without zero-size blocks exactly the allocation around the address ends; every other aligned allocation keeps its word and stays live |
| Heaps.AlignedOutlives | src/kernel/src/memory/heap.cpp:422-437 | whatever is allocated and whatever else is freed after it, the allocation that malloc_aligned made stays live with the word in front of it, so that free_aligned ends exactly it |
| Heaps.Perform | src/kernel/src/memory/heap.cpp:114-185 | allocating, and freeing anything else, leaves an aligned allocation live and the word in front of it in place |
| HeapLayout.SpansDisjoint | src/kernel/src/memory/heap.cpp:66-185 | in a heap that the operations keep tiled, no address belongs to two blocks |
| HeapLayout.SpanInRange | src/kernel/src/memory/heap.cpp:66-185 | every block lies inside the heap's range |
| HeapLayout.SizesSumToHeap | src/kernel/src/memory/heap.cpp:100-106 | the block sizes add up to the heap size |
| HeapLayout.AfterFreeTiles | src/kernel/src/memory/heap.cpp:166-185 | freeing keeps the tiling, and creates no zero-size block |
| HeapLayout.FreeEndsExactly | src/kernel/src/memory/heap.cpp:166-173 | freeing an allocation's address ends that allocation, and changes address and size of no other, if and only if no zero-size block stands right before it |
| HeapLayout.FreeReturns | src/kernel/src/memory/heap.cpp:166-185 | in a heap without zero-size blocks freeing ends exactly the allocation it is given |
| HeapLayout.EmptyTwinLeaks | src/kernel/src/memory/heap.cpp:166-173 | an allocation stays live when its address is freed while a zero-size block has that address |
| Heaps.ZeroRequestLeaks | src/kernel/src/memory/heap.cpp:114-173 | a run that leaves such a block: a request of no bytes gets the address of the allocation before it, and freeing that address leaves as many live allocations of the real block as before |
| HeapSteps.WholeCutLeaks | src/kernel/src/memory/heap.cpp:230-238 | the other cause: an exactly fitting donor stays behind as a zero-size block at the allocation's address |
| HeapLayout.LiveApart | src/kernel/src/memory/heap.cpp:114-164 | two allocations do not overlap |
| HeapTable.InsertAfter | src/kernel/src/memory/heap.cpp:160-161 | linking an unused slot behind a block inserts it at that place of the list, which stays acyclic and covers exactly the used slots |
| HeapTable.RemoveAfter | src/kernel/src/memory/heap.cpp:179-182 | unlinking and clearing the next block removes it from the list, which stays acyclic and covers exactly the used slots |
| KernelHeap.HeapInit | src/kernel/src/memory/heap.cpp:48-81 | the new heap has the bytes asked for, in whole large pages behind that of its block table, and while the page tables stand all of it is mapped, for user code if so asked; it fails only if the bitmap has no large page left or the address is unaligned |
| KernelHeap.PagedHeap.Expand | src/kernel/src/memory/heap.cpp:83-112 | growing through the real page layer keeps every address of the heap mapped, appends the bytes asked for in whole large pages, and fewer only if the bitmap is exhausted |
| KernelHeap.PagedHeap.Alloc | src/kernel/src/memory/heap.cpp:114-164 | allocates as the heap does over any page layer: first fit, growing only while nothing fits; while the page tables stand it keeps every address mapped; with two unused table slots it fails only if the bitmap is exhausted; a fault while mapping needs a second frame 0 or a page inside the recursive slot |
| KernelHeap.PagedHeap.ByteFound | src/kernel/src/memory/heap.cpp:48-112 | at any time in the life of such a heap the processor finds a physical byte for each of its addresses, outside all page tables |
| KernelHeap.PagedHeap.AccessGranted | src/kernel/src/memory/heap.cpp:96-100 | the processor lets every address of the heap and its block table be written; user code may use exactly those that heap_init mapped for it, and none that the heap grew by |
| KernelHeap.PagedHeap.BytesDiffer | src/kernel/src/memory/heap.cpp:48-112 | two addresses of the heap or of its block table are two bytes of physical memory |
| KernelHeap.PagedHeap.AllocationsApart | src/kernel/src/memory/heap.cpp:114-164 | no byte of one live allocation is, in physical memory, a byte of another |
| Bits.IsAlignedMeansMultiple | src/shared/include/common.hpp:185-188 | for a power of two, is_aligned is divisibility |
| Bits.AlignUpIsNearest | src/shared/include/common.hpp:190-193 | for a power of two, align_up is the least multiple not below the address, when the sum does not wrap |
| Bits.AlignDownIsNearest | src/shared/include/common.hpp:195-198 | for a power of two, align_down is the greatest multiple not above the address |
| Paging.Pml4VirtReaches | src/kernel/include/memory/paging.hpp:17-23 | the hardware walk of GET_PML4_VIRT lands on the top table when slot 511 holds its frame |
| Paging.PdptVirtReaches | src/kernel/include/memory/paging.hpp:24 | the hardware walk of GET_PDPT_VIRT lands on the table the top entry names, or faults if it is absent |
| Paging.PdtVirtReaches | src/kernel/include/memory/paging.hpp:25 | the hardware walk of GET_PDT_VIRT lands on the table the second-level entry names, or faults if it is absent |
| Vmem.Mmu.Map2Mb | src/kernel/src/arch/amd64/vmem.cpp:6-48 | refuses unaligned addresses without effect; in a state where the tables form a tree, with frames that no table uses, the tables then stand for the old page map with exactly this page redirected; its entry is present, writable and large, and open to user code as asked; the processor lets it be written, and user code at it as asked, with no other page affected; no other frame becomes a table; where a page directory would be its own parent it faults instead |
| Vmem.Mmu.EnsurePdpt | src/kernel/src/arch/amd64/vmem.cpp:19-24 | a missing second-level table in a fresh frame changes no translation; in any frame but the top table's it is empty, and what led through the frame is gone and nothing else |
| Vmem.Mmu.EnsurePdt | src/kernel/src/arch/amd64/vmem.cpp:26-31 | the same for a missing page directory; the table it hangs in, taken as its frame, loses the entry again |
| Vmem.Mmu.EnsureTables | src/kernel/src/arch/amd64/vmem.cpp:19-31 | both together |
| Vmem.Mmu.AllowUser | src/kernel/src/arch/amd64/vmem.cpp:33-38 | sets the user bit in both upper entries and changes no translation |
| Vmem.Mmu.Unmap2Mb | src/kernel/src/arch/amd64/vmem.cpp:50-73 | unmapping removes exactly this page from the map; for an aligned address it fails only if the page was not mapped |
| Vmem.Mmu.VirtualToPhysical | src/kernel/src/arch/amd64/vmem.cpp:75-94 | the answer is the page map's: the frame plus the offset, or null for an unmapped page |
| PageTables.HardwareAgrees | src/kernel/src/arch/amd64/vmem.cpp:6-94 | refinement down to the processor: its four-level walk takes every ordinary address to the byte the page map names, and faults where the map has no page, for frames below 2^52 |
| PageAccess.HardwareGuards | src/kernel/src/arch/amd64/vmem.cpp:19-45 | in every such state the flags of all levels together let each mapped page be written, and let user code at exactly the pages mapped for it |
| PageAccess.HangKeepsWays | src/kernel/src/arch/amd64/vmem.cpp:19-31 | a fresh table takes no right from a mapped page |
| PageAccess.SetUserKeepsWays | src/kernel/src/arch/amd64/vmem.cpp:35-38 | nor do the user bits set for another page |
| PageAccess.SetPageGuards | src/kernel/src/arch/amd64/vmem.cpp:40-45 | storing one directory entry changes the rights of that page and of no other |
| PageTables.WholePageTranslates | src/kernel/src/arch/amd64/vmem.cpp:92-93 | a mapped page translates each of its 2 MB to the byte at the same offset of its frame |
| PageTables.AddPdptTranslates | src/kernel/src/arch/amd64/vmem.cpp:20-24 | hanging a fresh zeroed table below the top table leaves every translation as it was |
| PageTables.AddPdtTranslates | src/kernel/src/arch/amd64/vmem.cpp:27-31 | hanging a fresh zeroed page directory leaves every translation as it was |
| PageTables.SetPageRepresents | src/kernel/src/arch/amd64/vmem.cpp:45 | storing one directory entry changes the translation of that page and of no other |
| PageTables.HangEffect | src/kernel/src/arch/amd64/vmem.cpp:20-31 | whatever frame but the top table's is hung as a new table, wherever one was missing: every address whose way led through it is unmapped, and every other address translates as before |
| PageTables.MappingsSurviveExactly | src/kernel/src/arch/amd64/vmem.cpp:20-31 | hence all mappings survive if and only if none led through the frame |
| Bitmap.PutGet | src/kernel/src/utils/bitmap.cpp:3-21 | setting or clearing a bit is what reading that index returns afterwards; every other index reads as before |
| PhysicalMemory.PhysMem.GetPage | src/kernel/src/memory/paging.cpp:15-29 | hands out the first page from 1 on that is not set and sets it alone; null only if all pages below both bounds are set |
| PhysicalMemory.PhysMem.TryReserve | src/kernel/src/memory/paging.cpp:31-55 | sets exactly the requested pages up to the end of the bitmap, and says whether all of them exist |
| PhysicalMemory.PhysMem.ReserveKernel | src/kernel/src/memory/paging.cpp:61-71 | the boot reservation sets page 0 and the whole kernel image, and everything handed out afterwards lies behind it |
| PhysicalMemory.PhysMem.ReserveTail | src/kernel/src/memory/vmem.cpp:58-64 | the 511 tail pages, set without looking, lie above everything handed out before |
| PhysicalMemory.RisingDisjoint | src/kernel/src/memory/paging.cpp:15-55 | two ranges handed out over a run have no page in common |
| KernelMemory.Kernel.TableFrame | src/kernel/src/memory/paging.cpp:15-29 | the frame for a new table is a page no table uses, behind all memory handed out before, or frame 0 when no page is left; every table stays where no large page was or will be handed out |
| KernelMemory.Kernel.MapPage | src/kernel/src/arch/amd64/vmem.cpp:6-48 | with frames from the page bitmap, and as long as frame 0 was taken at most once and no page inside the recursive slot, mapping redirects exactly this page, succeeds for aligned addresses, and every table stays behind the first-fit front and outside every large page handed out; two nulls for one page, or one for a directory inside frame 0, do not end in a mapping |
| KernelMemory.Kernel.SmartAllocPages | src/kernel/src/memory/vmem.cpp:48-76 | ends; maps consecutive large pages, fewer than asked only if the bitmap is exhausted or the address unaligned; as long as the tables stand, each page gets a 2 MB range handed out for it alone in this call and the rights asked for, no other page moves or changes its rights, and no other range changes hands |
| KernelMemory.GrantedApart | src/kernel/src/memory/vmem.cpp:48-76 | the physical ranges behind two pages mapped this way, over any run, have no page in common |
| KernelMemory.BytesApart | src/kernel/src/memory/vmem.cpp:48-76 | two different bytes mapped this way, of one page or two, are different physical bytes |
| KernelMemory.TableBytesApart | src/kernel/src/memory/vmem.cpp:48-76 | no byte mapped this way lies in a page table |
| LinearMaps.LinearMap.Get | src/shared/include/std/map.hpp:90-97 | the position of the first pair with the key, or the end |
| LinearMaps.LinearMap.Insert | src/shared/include/std/map.hpp:116-122 | appends at the end, unless the key is there |
| LinearMaps.LinearMap.Remove | src/shared/include/std/map.hpp:128-137 | deletes the pair with the key and keeps the order of the others |
| Schedulers.Scheduler.GetNext | src/kernel/src/virtual_thread.cpp:129-135 | the next position in table order, or the front after the last or an unknown handle |
| Schedulers.Scheduler.Add | src/kernel/src/virtual_thread.cpp:168-181 | a new thread joins at the end, runnable; the main thread stays in front |
| Schedulers.Scheduler.StartMain | src/kernel/src/virtual_thread.cpp:183-194 | the main thread is the first of the table |
| Schedulers.Scheduler.Visit | src/kernel/src/virtual_thread.cpp:252-277 | a starting thread is promoted, a sleeper wakes only when due, a stopping one is removed or, if critical, halts the kernel |
| Schedulers.Scheduler.Schedule | src/kernel/src/virtual_thread.cpp:237-286 | terminates; the thread it returns is in the table and running; it either selects a thread in table order, or reaps exactly one stopping thread that is not the caller and returns the main thread; a critical stopping thread halts |
| Schedulers.Scheduler.Sleep | src/kernel/src/virtual_thread.cpp:304-317 | a sleeping caller is not selected by its own yield, and stays in the table with a deadline the asked time after the call |
| Scheduling.SelectsKeeps | src/kernel/src/virtual_thread.cpp:237-286 | a selecting call keeps the table's threads and the main thread runnable in front |
| Scheduling.ReapsKeeps | src/kernel/src/virtual_thread.cpp:146-160 | a reaping call removes one thread, keeps the caller at its position, and keeps the main thread runnable in front |
| Scheduling.ReapWakesNobody | src/kernel/src/virtual_thread.cpp:259-262 | the threads asleep before a reaping call are asleep after it |
| Scheduling.NoEarlyWake | src/kernel/src/virtual_thread.cpp:137-144 | a thread that was asleep and is not any more is the selected one, and its deadline had come |
| Scheduling.NoneOverlooked | src/kernel/src/virtual_thread.cpp:237-286 | whoever a selecting call passes over does not run, sleeps on beyond the beginning of the call, or was starting and runs from then on; no stopping thread is passed over |
| Scheduling.NoneOverlookedReaping | src/kernel/src/virtual_thread.cpp:237-286 | the same for those before the thread that a reaping call takes out |
| Scheduling.SelectedRuns | src/kernel/src/virtual_thread.cpp:252-286 | the selected thread ran already, or slept and was due, and runs |
| Scheduling.HaltsOverCritical | src/kernel/src/virtual_thread.cpp:146-151 | the kernel halts only over a critical thread that wants to stop, before which nobody was due |
| Scheduling.CallCloser | src/kernel/src/virtual_thread.cpp:129-135 | a call that reaps nobody selects a given runnable thread or comes strictly closer to it in table order |
| Scheduling.RunnableIsSelected | src/kernel/src/virtual_thread.cpp:237-286 | fairness: a thread that stays runnable, running or asleep past its deadline, is selected within table size times one plus the reapings made meanwhile, when no thread is created |
| Scheduling.DueIsSelected | src/kernel/src/virtual_thread.cpp:237-286 | a sleeper whose deadline has come is selected within that bound, as long as nobody else changes its state |
| TcpClient.Connection.SendWithFlags | src/kernel/src/network/tcp.cpp:39-92 | the segment carries the send counter, an ACK the receive counter; the send counter moves, over all of the data, only if the link took the segment |
| TcpClient.Connection.IpSend | src/kernel/src/network/ip.cpp:61-101 | the link refuses a segment or carries its first 1500 bytes |
| TcpClient.Connection.Send | src/kernel/src/network/tcp.cpp:94-109 | opens on the first call, sends data once established, refuses otherwise |
| TcpClient.Connection.Receive | src/kernel/src/network/tcp.cpp:145-206 | per segment the block takes the step of the specification whose runs are studied below |
| TcpDelivery.Handshake | src/kernel/src/network/tcp.cpp:167-179 | a waiting client opens exactly on a SYN,ACK for the number after its SYN, counts from the number of that segment, and acknowledges it; anything else but a FIN or reset changes nothing |
| TcpDelivery.DataTakenExactly | src/kernel/src/network/tcp.cpp:181-205 | an open client takes data exactly where it stands, and answers data wherever it stands with one ACK of what it has |
| TcpDelivery.FinCloses | src/kernel/src/network/tcp.cpp:149-156 | a FIN closes the connection, is counted, and answered with one ACK |
| TcpDelivery.SendsExactly | src/kernel/src/network/tcp.cpp:94-109 | what each send puts on the wire: a SYN first, later the data behind everything sent, and nothing in between |
| TcpProtocol.ReceiveKeepsOrder | src/kernel/src/network/tcp.cpp:149-205 | one segment of an honest peer, whichever it is, keeps the delivered bytes a prefix of the peer's stream and the receive counter in step |
| TcpProtocol.DeliveredIsPrefix | src/kernel/src/network/tcp.cpp:130-206 | over every schedule that loses, repeats or reorders an honest peer's segments: the delivered bytes are a prefix of its stream, and while the connection is open the receive counter and each ACK equal IRS+1+delivered modulo 2^32 |
| TcpDelivery.StreamArrivesExactly | src/kernel/src/network/tcp.cpp:94-206 | over every schedule of a peer that resends in the same pieces: the client has the whole stream if and only if the schedule brings, in this order, a first send the link takes, the SYN,ACK, and every piece, whatever is lost, repeated or comes between |
| TcpDelivery.StreamStays | src/kernel/src/network/tcp.cpp:145-206 | it keeps what it has, whatever an honest peer sends afterwards |
| TcpDelivery.NewPiecesLoseByte | src/kernel/src/network/tcp.cpp:194-199 | a concrete peer that resends in other pieces: every byte arrives in order, and the last is never delivered |
| TcpProtocol.WrappedStreamRepeats | src/kernel/src/network/tcp.cpp:194-202 | why the stream is bounded: after 2^32 bytes a late copy of the first segment is delivered again |
| TcpProtocol.FinAckSound | src/kernel/src/network/tcp.cpp:149-156 | the answer to a FIN claims only what was delivered if and only if the FIN ends where the receiver stands |
| TcpProtocol.EarlyFinAcksLostByte | src/kernel/src/network/tcp.cpp:149-156 | a concrete early FIN: the client acknowledges a byte it never delivers |
| TcpProtocol.ResetClosesExactly | src/kernel/src/network/tcp.cpp:158-165 | a reset closes if and only if it lies in the window its own header names, counted from the next number expected, and the upper end of that window does not wrap |
| TcpProtocol.ResetMeetsWindow | src/kernel/src/network/tcp.cpp:158-165 | it is treated as the receive window demands if and only if the window of its header, with that wrap, says the same |
| TcpProtocol.ResetsMistreated | src/kernel/src/network/tcp.cpp:158-165 | three concrete resets where it is not: at the next number with window 0, far outside the receive window, and at the wrap |
| TcpProtocol.RunSendsHonestly | src/kernel/src/network/tcp.cpp:39-128 | over every run, while the connection is open, each segment on the wire, cut or not, is one of an honest sender of the bytes whose send was reported as done |
| TcpProtocol.WireCarriesAccepted | src/kernel/src/network/tcp.cpp:83-90 | over every run the wire carries exactly those bytes if and only if no send had more than 1480 of them |
| TcpProtocol.LongSendLosesByte | src/kernel/src/network/tcp.cpp:83-90 | a concrete send of 1481 bytes of which 1480 go out |
| Checksum.OnesFolds | src/kernel/src/network/ip.cpp:14 | folding the carries in keeps the value modulo 0xFFFF and keeps zero apart |
| Checksum.Fold | src/kernel/src/network/ip.cpp:14 | the loop ends on the one's-complement value |
| Checksum.IpChecksum | src/kernel/src/network/ip.cpp:9-16 | complement of the one's-complement sum of native words, without overflow up to 65535 bytes |
| Checksum.UdpChecksum | src/kernel/src/network/udp.cpp:23-54 | complement of the sum over pseudo header and padded datagram, zero sent as 0xFFFF, without overflow |
| Checksum.TcpChecksum | src/kernel/src/network/tcp.cpp:9-33 | the same for a segment, without the zero rule |
| Checksum.PacketSums | src/kernel/src/network/udp.cpp:23-44 | the sum that UDP and TCP complement is that of every byte of the 12-byte pseudo header and of the packet behind it, those at even places times 256 |
| Checksum.SumCountsBytes | src/kernel/src/network/ip.cpp:9-13 | the sum over the words of even or odd data counts every byte |
| Checksum.UdpAccepted | src/kernel/src/network/udp.cpp:81-86 | for every datagram, odd or even, the receiver's sum is 0xFFFF exactly for the stored checksum, or for a zero field where the zero rule applied |
| Checksum.TcpAccepted | src/kernel/src/network/tcp.cpp:75-80 | for every segment, as handed to IP, the receiver's sum is 0xFFFF exactly for the stored checksum or its other zero |
| Checksum.TcpArrives | src/kernel/src/network/ip.cpp:61-97 | as IP carries it, cut to 1500 bytes, its sum is 0xFFFF if and only if it was not cut, or the words cut off and the missing length vanish modulo 0xFFFF |
| Checksum.LongSegmentRefused | src/kernel/src/network/ip.cpp:61-97 | a concrete segment of 2020 bytes that every receiver refuses |
| Checksum.OnesSwapped | src/kernel/src/network/ip.cpp:9-16 | summing native words is summing network words with the bytes of the result swapped |
| Checksum.SameBytesOnTheWire | src/kernel/src/network/ip.cpp:77-78 | the native checksum stored as it is and the network-order one stored through bswap16 write the same bytes |
| Checksum.IpHeaderAccepted | src/kernel/src/network/ip.cpp:67-78 | the finished IP header sums to 0xFFFF |
| Dns.DecodeHostname | src/kernel/src/network/dns.cpp:97-201 | returns a name exactly when the walk over labels and pointers ends, runs off the packet, or is cut after 255 steps, within 254 characters and without meeting a remembered pointer twice; the offset is left behind the terminator or the first pointer |
| DnsNames.LookExactly | src/kernel/src/network/dns.cpp:116-171 | what the decoder reads at a position is a label, pointer or end if and only if those are the bytes the wire format puts there; its bit masks compute this reading |
| Dns.EncodedLength | src/kernel/src/network/dns.cpp:203-245 | the size of the name at the front, up to its end or first pointer |
| Dns.EncodeHostname | src/kernel/src/network/dns.cpp:11-58 | encodes label by label up to the first empty one; refuses labels over 63 and results over 255 bytes; for every name whose output fits the buffer |
| DnsEncoding.ExtentBounded | src/kernel/src/network/dns.cpp:15-16 | names of up to 254 characters do |
| DnsNames.EndedHasNoRepeats | src/kernel/src/network/dns.cpp:140-146 | the memory of visited pointers never rejects a name that ends |
| DnsNames.DecodesExpansionExactly | src/kernel/src/network/dns.cpp:97-201 | for backward pointers the decoder returns the recursive expansion if and only if it has at most 254 characters and takes at most 254 steps, or at least 256 with no label behind the 255th |
| DnsNames.DecodesExpansion | src/kernel/src/network/dns.cpp:97-201 | every name of up to 254 characters and 254 steps decodes to its recursive expansion and to nothing else |
| DnsNames.SelfPointerIsRoot | src/kernel/src/network/dns.cpp:113-115 | a pointer to itself from position 255 on never ends, yet is decoded as the empty name, because the step counter wraps |
| DnsNames.SelfPointerPacket | src/kernel/src/network/dns.cpp:191-194 | a concrete such packet |
| DnsNames.UnterminatedAccepted | src/kernel/src/network/dns.cpp:115-121 | a concrete packet without terminator that is decoded all the same |
| DnsEncoding.WireDecodes | src/kernel/src/network/dns.cpp:97-201 | an encoded name inside any packet is decoded to its labels, with the offset right behind it |
| DnsEncoding.RoundTrip | src/kernel/src/network/dns.cpp:11-58 | decode(encode(h)) is h if and only if h is empty or its labels have 1 to 63 bytes and it has at most 253 |
| DnsEncoding.FlatIsNameEnd | src/kernel/src/network/dns.cpp:203-245 | where the decoder finds a whole name, the length is the offset it leaves |
| DnsEncoding.EncodedHasLength | src/kernel/src/network/dns.cpp:203-245 | the length of an encoded name is the encoder's size |
| Dhcp.OptionsWriter.AddOption | src/kernel/src/network/dhcp.cpp:16-26 | accepts exactly what fits and appends it; a refused option changes nothing a reader finds |
| Dhcp.OptionsWriter.Shutdown | src/kernel/src/network/dhcp.cpp:28-34 | writes the end mark if there is room; the options stay readable either way |
| Dhcp.Get | src/kernel/src/network/dhcp.cpp:36-69 | the walk over the options from the front |
| Dhcp.FindsFirst | src/kernel/src/network/dhcp.cpp:36-69 | the reader finds the first accepted option of a code, with its exact length and bytes, if and only if it has a code of its own and at most 255 bytes, as long as the options before it do; null if there is none |
| Dhcp.EndHides | src/kernel/src/network/dhcp.cpp:36-69 | an option with the end code, behind sound ones, hides every code not written before it |
| Dhcp.MarkersNotFound | src/kernel/src/network/dhcp.cpp:44-51 | the codes 0 and 255 are never found, in any buffer |
| Dhcp.LongOptionMisread | src/kernel/src/network/dhcp.cpp:20-23 | an instance: a 256-byte option claims length 0, and its data is read as further options |
| RingBuffers.RingBuffer.Insert | src/shared/include/std/ring_buffer.hpp:25-33 | appends to the queue unless it holds N-1 items |
| RingBuffers.RingBuffer.Get | src/shared/include/std/ring_buffer.hpp:45-54 | takes the oldest item unless the queue is empty |
| RingBuffers.RingBuffer.Size | src/shared/include/std/ring_buffer.hpp:60-62 | the number of items held |
| RingBufferInterleaving.FifoUnderInterleaving | src/shared/include/std/ring_buffer.hpp:25-54 | in every interleaving of single producer and consumer steps the items taken are the oldest accepted ones in order, the rest are held, and at most N-1 |
| RingBufferInterleaving.LoadedItemIsNext | src/shared/include/std/ring_buffer.hpp:45-54 | the item about to be handed out is the oldest accepted one not taken, whatever the producer did meanwhile |
| Nvme.QueuePair.constructor | src/kernel/src/drivers/storage/nvme.cpp:39-61 | a zeroed ring with phase 1 and nothing in flight |
| Nvme.PhaseTellsPosted | src/kernel/src/drivers/storage/nvme.cpp:84-85 | the phase bit under the head says exactly whether the next entry has been posted, over any number of wraps |
| Nvme.PostKeepsInv | src/kernel/src/drivers/storage/nvme.cpp:84-93 | a controller that respects the head doorbell never overwrites an entry not yet consumed |
| Nvme.QueuePair.Submit | src/kernel/src/drivers/storage/nvme.cpp:70-79 | the command stands in the tail slot under the next identifier, otherwise unchanged, behind the doorbell, and on a quiet queue it alone is on its way |
| Nvme.QueuePair.SubmitAndWait | src/kernel/src/drivers/storage/nvme.cpp:70-104 | the entry consumed is the next one in posting order, one that some controller behaviour since the submission posts; on a quiet queue it belongs to the command just submitted, which leaves the queue quiet; the tagged command stands in its slot, and a timeout means nothing was posted |
| Nvme.QueuePair.SubmitAll | src/kernel/src/drivers/storage/nvme.cpp:70-104 | over any number of commands up to the first timeout the answers are the next entries in posting order, and each carries the identifier its command was submitted under |
| Nvme.AnswersExactly | src/kernel/src/drivers/storage/nvme.cpp:70-104 | over every controller behaviour the next answer carries a given identifier if and only if nothing else is waiting, in execution or pending |
| Nvme.MatchExactlyWhenQuiet | src/kernel/src/drivers/storage/nvme.cpp:70-104 | it is that of the command just submitted if and only if the queue was quiet, when the ring has room and the identifier is not that of an earlier command still outstanding |
| Nvme.LateAnswerTaken | src/kernel/src/drivers/storage/nvme.cpp:70-104 | a run after a timeout: the second command is given the answer of the first |
| Nvme.FullRingLoses | src/kernel/src/drivers/storage/nvme.cpp:70-79 | submitting into a full ring makes it look empty: every pending command is lost |
| Minesweeper.Game.NeighbourTiles | src/minesweeper/src/minesweeper.cpp:21-33 | exactly the tiles around a tile, each once |
| Minesweeper.Game.BoardCreate | src/minesweeper/src/minesweeper.cpp:83-137 | for every random sequence: the bombs are exactly the cells the partial shuffle draws, bombCount of them, and every safe tile counts its bomb neighbours |
| Minesweeper.Game.PlaceBombs | src/minesweeper/src/minesweeper.cpp:100-120 | the partial shuffle over the free cells places a bomb on each cell drawn, all distinct, and changes nothing else |
| Minesweeper.Game.CountBombs | src/minesweeper/src/minesweeper.cpp:122-130 | each safe tile's count is its number of bomb neighbours |
| Minesweeper.Game.EndGame | src/minesweeper/src/minesweeper.cpp:53-61 | shows exactly the unmarked bombs |
| Minesweeper.Game.TileReveal | src/minesweeper/src/minesweeper.cpp:63-81 | terminates; an unmarked tile shows afterwards; from a safe hidden unmarked tile it newly reveals exactly the tiles its white paths reach; a bomb ends the game; a shown or marked tile changes nothing |
| MinesweeperBoard.WhitePathTheorem | src/minesweeper/src/minesweeper.cpp:63-81 | a set of newly revealed tiles that is sound and closed under spreading is exactly the reachable one |
| MinesweeperBoard.NestedReveal | src/minesweeper/src/minesweeper.cpp:77-80 | a nested reveal in the neighbour loop keeps that set sound and closed but for the tile in progress |
| MinesweeperBoard.RevealsNoBomb | src/minesweeper/src/minesweeper.cpp:77-80 | the flood reveals no bomb and no marked tile |
| Minesweeper.Game.TileFromPos | src/minesweeper/src/minesweeper.cpp:35-46 | a pixel belongs to the tile whose square holds it, and to none outside the board |
| Minesweeper.Game.HandleLmbUp | src/minesweeper/src/main.cpp:46-103 | in every running game no bomb shows; a click opens the tile; unless it sets off a bomb, the game ends, and is won, exactly when all safe tiles show; after a bomb, under the condition of BombClickWins |
| Minesweeper.Game.HandleRmbUp | src/minesweeper/src/main.cpp:105-122 | toggles the mark of one hidden tile of a running game |
| MinesweeperBoard.HiddenCountWins | src/minesweeper/src/main.cpp:83-89 | while no bomb shows, the count of hidden tiles equals bombCount exactly when all safe tiles are shown |
| MinesweeperBoard.BombClickWins | src/minesweeper/src/main.cpp:83-89 | after a bomb went off, the win is declared if and only if as many safe tiles are hidden as there are unmarked bombs |
| Minesweeper.LosingClickWins | src/minesweeper/src/main.cpp:46-122 | a game played through the click handlers, on a board with a safe corner beside the bombs: its last click hits a bomb while a safe tile is hidden, and the game is won |
| Minesweeper.LosingGame | src/minesweeper/src/main.cpp:46-122 | such a game from its start, in every configuration at least two tiles wide with a bomb and a safe tile: the random engine draws the bombs around the corner, and the game is played through the click handlers alone |
| MinesweeperBoard.CorneredExists | src/minesweeper/src/main.cpp:81-89 | such a board exists in every configuration at least two tiles wide with a bomb and a safe tile |
| MinesweeperBoard.DescendingDraws | src/minesweeper/src/minesweeper.cpp:100-120 | the draws that place the bombs on the first cells behind the corner |
| MinesweeperBoard.ShippedConfigs | src/minesweeper/include/minesweeper.hpp:77-81 | so in each of the game's three |
| MinesweeperBoard.CornerStaysHidden | src/minesweeper/src/minesweeper.cpp:74-80 | no flood from elsewhere reaches the corner |

## Left out

- Heaps.Heap.constructor: the block table starts zeroed, which `heap_init` takes for granted of the memory it maps.
- Heaps.Heap.Alloc: sizes and addresses do not wrap at 64 bits; the heap's range is kept below 2^64.
- Heaps.Heap.Free: one pass of merging, as in the source; two free neighbours may remain. `dma_heap_free` is the same code.
- Heaps.Heap.DmaAlloc: the DMA heap's own set-up and its table of heaps are not modelled.
- KernelMemory.Kernel.MapPage: once frame 0 was taken for a table twice, or a page was mapped inside slot 511, it promises no more than that nothing handed out is taken back.
- KernelHeap.PagedHeap.Alloc: malloc_aligned and the DMA heap are proved over any page layer, not repeated over this one; the heap lies at least 4 GB below 2^64.
- PhysicalMemory.PhysMem.GetPage: the memory limit, computed in floating point, is an opaque bound; the mutex is left out.
- PhysicalMemory.PhysMem.ReserveTail: the tail of a 2 MB range may cover pages reserved for other reasons; only handed-out ranges are kept apart.
- Vmem.Mmu.Map2Mb: it runs for addresses inside the recursive slot 511, and with a frame that is a table elsewhere, but promises no page map there; entries left by the boot code, the TLB and its flushes are not modelled.
- Schedulers.Scheduler.Schedule: register contexts, stacks and the process switch are not modelled; the main thread is never asked to stop; the stack check of the scan cannot be reached in the source.
- Schedulers.Scheduler.Sleep: the main thread's busy wait is left out.
- TcpClient.Connection.Receive: segments whose header length exceeds the segment, and the incoming checksum, which the source does not look at; the port lookup is left out, one connection is modelled.
- TcpClient.Connection.SendWithFlags: header layout in bytes, route lookup and the failure of malloc; the link is one choice per segment. The FIN branch of the established state cannot be reached in the source.
- Checksum.TcpChecksum: segments over 65535 bytes, for which the 32-bit sum may wrap.
- Dns.DecodeHostname: a zero byte or a dot inside a label is kept in the byte string; a failed decode leaves the offset open.
- Dns.EncodeHostname: host names whose output does not fit the buffer, which the source writes before it checks the length.
- Nvme.QueuePair.SubmitAndWait: an entry is read in one piece, depth is at least 2, and polling is bounded as in the source, though no contract counts the polls; PRP lists and admin commands are left out.
- RingBufferInterleaving.FifoUnderInterleaving: single steps are sequentially consistent; compiler and processor reordering of the plain index writes is not modelled.
- Minesweeper.Game.HandleLmbUp: peeking, click marks, sprites and a failing allocation of the board are left out.
- TCP retransmission and teardown, the DNS client and its cache, DHCP sessions: no guarantee spans more than one packet there.
- FAT32, ISO9660, VFS, ELF, strings, drivers, graphics, windows, process launch: outside the kernel's memory, scheduling and network core.
