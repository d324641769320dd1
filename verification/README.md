# A verified model of the DOSFS kernel's in-memory state machines

DOSFS is a small i386 kernel in C and Rust. This project models the parts of it that are
state machines over memory and proves what they keep, what they undo and what they refine:

| part | files | what it refines |
|---|---|---|
| kernel heap | `HeapList`, `HeapRuns`, `HeapHeaders`, `Heap` | headers in a byte memory refine an ordered list of blocks |
| editor and tmpfs | `CString`, `TextBuffer`, `SaveFormat`, `Tmpfs`, `Editor` | NUL-terminated rows and a cursor refine lines, and lines refine one flat string and one offset; slots refine a map from names to contents |
| Internet checksum | `Checksum` | native-order sums refine the definition of RFC 1071 |
| scheduler | `Scheduler` | the slot scan refines rotation along the ring of runnable slots |
| FAT16 | `FatTable`, `Fat16`, `FatRead`, `FatNames` | sector bytes refine a table of 16-bit entries |
| paging | `Pmm`, `Vmm` | bits refine a set of held pages; two-level tables refine a flat map |
| message ring | `Ipc` | 64 slots and two indices refine a bounded queue |
| numbers | `Numbers` | digit buffers refine positional notation |

`Memory` holds byte memory and little-endian access, `Common` what several parts share. Code that works in place (arrays, fields,
loops) is a class or a method over arrays, proved equal to a function on values. What the
kernel promises is proved about those functions, for one call and for whole runs.

## How the parts are tied together

- `Heap.KernelHeap` keeps 20-byte headers in an array of bytes. Each operation is the source's
  stores into those headers; its contract says that the headers then represent exactly the
  list that the function in `HeapList` or `HeapRuns` gives, and that no byte of another live
  payload changed. Layout, coalescing, conservation and ownership are theorems about the list.
- `Editor.Editor` is proved equal, key by key, to `TextBuffer.Step`, and `TextBuffer.RunRefines`
  ties whole runs of keys to a machine with one string and one offset. Saving and opening go
  through the contracts of `Tmpfs.FileSystem`.
- `Scheduler.ProcessTable`, `Ipc.MessageQueue`, the FAT methods and `Tmpfs.FileSystem` follow the
  same scheme.
- `Vmm.AddressSpace` allocates its tables from a `Pmm.PageMap`: that a new table disturbs no
  translation rests on the page map never handing out a held page.

## Where the code does less than its names promise

Each of these is stated as an exact condition, or as a concrete input beside one.

- Heap growth rounds the request to pages in 32 bits. From 0xFFFFEFED bytes on it maps no page
  and still answers with a pointer (`HeapList.MallocKeepsValidIff`, `HeapRuns.GrowthWrapsExample`).
- Freeing a pointer twice in a row is harmless exactly when the first call did not let a free
  predecessor absorb the block. Otherwise the header it leaves behind still carries the magic, and
  the predecessor grows a second time (`HeapRuns.SecondFreeHarmlessIff`, `HeapRuns.SecondFreeExample`,
  `Heap.KernelHeap.KfreeTwice`). At any later time, freeing a pointer that nobody holds changes
  nothing exactly when no such stale header is behind it (`Heap.KernelHeap.Kfree`); if the address
  was handed out again, it takes the new holder's block. Theorems about whole runs are therefore
  about clients that give back only what they hold.
- `scheduler_init` does not reset the process count (`Scheduler.InitInvIff`, `Scheduler.InitKeepsCount`).
- A process that is READY, current and the only runnable one is charged no slice by ticks, however
  many. Every other runnable one is, within one round of ticks if the current process is RUNNING and
  one tick later otherwise (`Scheduler.ChargedIff`). Yielding alone leads
  there, and creating a process leads out (`Scheduler.LoneYielderUncharged`, `Scheduler.CreateUnsticks`).
- A TCP segment longer than 65523 bytes is summed over the head of its pseudo-header only
  (`Checksum.TcpLengthLimit`).
- The size tests of the network code add lengths in 16 bits. Payloads from 65502 bytes, and TCP data
  from 65516 bytes, pass them and are copied past the end of a 1500-byte frame
  (`Checksum.SizingIff`, `Checksum.OverrunExamples`).
- A page mapped with the user flag is still out of reach for user code, because every page table is
  entered for the kernel only (`Vmm.UserNeverGranted`).
- TCP data of 1447 to 1480 bytes fits a segment but not a frame: the segment is built and dropped, yet
  the sequence number advances and the caller is told that all was sent (`Checksum.DroppedIff`,
  `Checksum.SendData`). Longer data is refused, with the same answer.
- Saving answers success although the text was cut to 4096 bytes or no slot was free. The whole text
  is in the file exactly if it fits and has a slot (`SaveFormat.SavedWholeIff`, `SaveFormat.TooLongExample`).
- A temporary file with a name of 64 characters or more is created under the cut name, not found
  again, and written through a null pointer (`Tmpfs.FoundAgainIff`, `Tmpfs.LongNameLost`). It makes
  names ambiguous exactly when the cut name was in use (`Tmpfs.AddedDistinctIff`).
- A file that is saved and opened again is the same exactly when its text fits 4095 bytes and does
  not end in an empty line after others (`SaveFormat.ReopenIff`, `SaveFormat.EmptyLastLineLost`).
- Reading a FAT16 file need not stop at the end of the file: on a cyclic chain it ends only if the
  buffer is no larger than the file (`FatRead.ReadEndsIff`, `FatRead.ReadsForEver`).
- A cluster from 0xFF8 up can be allocated but its chain is not freed
  (`Fat16.FreeUndoesAllocateIff`, `Fat16.FreshClusterStays`).
- Names survive parsing and unparsing exactly when they are canonical, or proper 8.3 names
  (`FatNames.ParseUnparseIff`, `FatNames.InnerSpaceLost`, `FatNames.UnparseParseIff`,
  `FatNames.SecondDotLost`).
- Freeing an address inside page 0 makes page 0 available, and no other address does
  (`Pmm.PageMap.FreePage`). The next allocation then takes page 0 and answers null, however many
  pages are free (`Pmm.PageMap.AllocPage`, `Pmm.PageMap.FirstPageLost`).
- `atoi` overflows on exactly one number that `itoa` prints, the smallest (`Numbers.RoundTrip`).

Branches that cannot be reached are kept as `assert false`: in `Editor.Editor.InsertChar` (a cursor
below the last line or past the end of its line) and `Ipc.MessageQueue.Receive` (an unused head slot).
Where the code would write outside an array or through a null pointer, the method stops and its
result says so.

## Model

| member | source | states |
|---|---|---|
| HeapList.FirstFit | src/memory/heap.c:25-34 | the first free block that is large enough, or none when no block is |
| HeapList.BlocksApart | src/memory/heap.c:99-196 | any two blocks of a well-formed list lie apart, headers included |
| HeapList.ExtendKeepsLayoutIff | src/memory/heap.c:36-66 | growth, even when it is refused half way, keeps the layout exactly when the block fits the pages mapped for it |
| HeapList.CarveKeepsValid | src/memory/heap.c:104-118 | serving a request from the list keeps it ordered, apart, in bounds and without free neighbours |
| HeapList.CarveServes | src/memory/heap.c:104-118 | the served block starts where the free one did and wastes less than 24 bytes; the rest is a free block up to the old end; no other block changes |
| HeapList.MergeKeepsLayout | src/memory/heap.c:168-178 | absorbing a neighbour keeps the order although nothing checks that the two are adjacent |
| HeapList.ReleaseKeepsValid | src/memory/heap.c:160-179 | freeing any block keeps the list well-formed, gaps between blocks notwithstanding |
| HeapList.ReleaseKeepsCoalesced | src/memory/heap.c:168-178 | after a free no two neighbours are both free |
| HeapList.MallocKeepsValidIff | src/memory/heap.c:99-124 | every request keeps the heap well-formed, except exactly those that grow it with a page count that wraps |
| HeapList.MallocAlignedKeepsValidIff | src/memory/heap.c:126-158 | the same for page-granular requests |
| HeapList.MallocAnswersIff | src/memory/heap.c:99-124 | a request is answered exactly if it is neither empty nor too large and a free block can hold it, or the pages for it are there, or their count wraps |
| HeapList.MallocChooses | src/memory/heap.c:103-123 | the first free block that can hold it serves it; only without one the heap grows, at its end, by the least number of pages, or by all there were when they are too few |
| HeapList.MallocAlignedAnswersIff | src/memory/heap.c:126-158 | answered exactly if the pages are there, or their count wraps, with the end of the heap and all new pages |
| HeapList.MallocHandsOut | src/memory/heap.c:99-124 | an answered request adds one 4-aligned, large enough block to those held; a refused one changes no block |
| HeapList.MallocAlignedHandsOut | src/memory/heap.c:126-158 | the same for page-granular requests |
| HeapList.ReleaseTakesBack | src/memory/heap.c:160-179 | a free takes back the block it is given and no other |
| HeapList.ReleaseUndoesCarve | src/memory/heap.c:104-118 | freeing what was just served from the list restores the block list exactly |
| HeapList.CarveKeepsTotal | src/memory/heap.c:105-117 | serving from the list conserves header and payload bytes |
| HeapList.ReleaseKeepsTotal | src/memory/heap.c:160-179 | freeing conserves header and payload bytes |
| HeapList.NothingLive | src/memory/heap.c:160-179 | when nothing is held the whole heap is one free block holding the whole sum |
| HeapRuns.InitValid | src/memory/heap.c:68-97 | the heap after initialisation has up to 64 pages, is well-formed, accounts for all mapped bytes and holds nothing |
| HeapRuns.IndexOf | src/memory/heap.c:163-164 | the block behind a pointer, if the list has one |
| HeapRuns.StepValid | src/memory/heap.c:99-196 | every call that gives back or resizes only what is held keeps the heap well-formed and never loses accounted bytes |
| HeapRuns.RunSafe | src/memory/heap.c:99-196 | over every run of such calls whose page rounding does not wrap: order, separation, bounds, no free neighbours, and one free block once everything is back |
| HeapRuns.StepOwns | src/memory/heap.c:99-196 | one call changes the live pointers as its answer says |
| HeapRuns.RunOwns | src/memory/heap.c:99-196 | over every disciplined run the pointers clients hold are exactly the live blocks |
| HeapRuns.ResizeAnswersIff | src/memory/heap.c:181-196 | a held block stays in place exactly if it is large enough, and otherwise moves exactly if kmalloc can serve the size |
| HeapRuns.ResizeSpecial | src/memory/heap.c:182-186 | null is kmalloc, size 0 is kfree, a pointer without a header is refused |
| HeapRuns.FreeUndoesMalloc | src/memory/heap.c:99-179 | allocate from the list, free: the heap is as before |
| HeapRuns.SecondFreeHarmless | src/memory/heap.c:160-179 | freeing a block that is free and still listed changes nothing |
| HeapRuns.SecondFreeHarmlessIff | src/memory/heap.c:160-179 | two frees of a pointer are as good as one exactly when the first did not let a free predecessor absorb the block |
| HeapRuns.SecondFreeKeepsValidIff | src/memory/heap.c:174-178 | otherwise the heap stays well-formed exactly when a gap behind the predecessor takes the block again |
| HeapRuns.SecondFreeExample | src/memory/heap.c:160-179 | two small blocks freed in order and the second once more: one free block of twice the memory |
| HeapRuns.GrowthWrapsExample | src/memory/heap.c:36-51 | the smallest request whose page rounding wraps breaks the layout |
| Heap.KernelHeap.Init | src/memory/heap.c:68-97 | maps up to 64 pages into one free block whose header is in memory |
| Heap.KernelHeap.FindFreeBlock | src/memory/heap.c:25-34 | following the headers finds the first fit |
| Heap.KernelHeap.MapPages | src/memory/heap.c:41-47 | pages are mapped and zeroed one by one; a refusal leaves the ones before it |
| Heap.KernelHeap.Append | src/memory/heap.c:49-65 | the stores that set up a block leave a header chain for the longer list |
| Heap.KernelHeap.Split | src/memory/heap.c:105-116 | the stores of a split leave a header chain for the carved list |
| HeapHeaders.AbsorbedListed | src/memory/heap.c:168-178 | the stores of a merge leave a header chain for the merged list, and the absorbed header as it was |
| Heap.KernelHeap.Absorb | src/memory/heap.c:168-178 | for any two adjacent headers: sizes add in 32 bits, the link goes on and points back |
| Heap.KernelHeap.Kmalloc | src/memory/heap.c:99-124 | the list becomes what the specification says and no live payload byte changes |
| Heap.KernelHeap.KmallocAligned | src/memory/heap.c:126-158 | the same for page-granular requests |
| Heap.KernelHeap.FreeHeader | src/memory/heap.c:167-178 | the same stores release a listed block, or grow the predecessor of a stale header by its size, and touch no live byte |
| Heap.KernelHeap.Kfree | src/memory/heap.c:160-179 | the block is released and no byte that is still live changes; pointers without a header are ignored; freeing what nobody holds changes nothing exactly when no stale header is there |
| HeapHeaders.LeavesStale | src/memory/heap.c:167-178 | what the header of an absorbed block says and where it lies |
| Heap.KernelHeap.KfreeTwice | src/memory/heap.c:160-179 | two calls in a row on the memory itself: the stated list, and the same heap exactly if the block was not absorbed |
| Heap.KernelHeap.Krealloc | src/memory/heap.c:181-196 | the block moves or stays with its bytes, or fails untouched; all other live bytes stay |
| Heap.KernelHeap.Memcpy | src/libc/string.c:16-21 | copies a range byte for byte |
| Heap.KernelHeap.Memset | src/libc/string.c:10-14 | fills a range |
| CString.Strlen | src/libc/string.c:34-38 | the length of the string before the NUL |
| CString.Strcpy | src/libc/string.c:69-73 | the copy is the string, terminated; characters before it stay |
| CString.Strcat | src/libc/string.c:82-87 | the two strings joined, terminated |
| TextBuffer.StepValid | src/tools/editor.c:252-319 | every key keeps lines under 80 characters, the cursor inside its line, and the cursor in view |
| TextBuffer.TextAround | src/tools/editor.c:163-173 | the joined text around any line |
| TextBuffer.LineBounds | src/tools/editor.c:292-295 | line start and end in the flat text are the cursor's line |
| TextBuffer.InsertRefines | src/tools/editor.c:77-105 | an accepted character appears at the offset and nowhere else; a full line refuses it |
| TextBuffer.BreakRefines | src/tools/editor.c:132-147 | a newline appears at the offset unless there are 256 lines |
| TextBuffer.EraseRefines | src/tools/editor.c:107-130 | the character before the offset disappears, unless joining would reach 80 characters |
| TextBuffer.AboveIs | src/tools/editor.c:296-303 | walking up line starts in the text is going up lines, with the first as the end |
| TextBuffer.BelowIs | src/tools/editor.c:304-311 | walking down is going down lines, with the last as the end |
| TextBuffer.MoveRefines | src/tools/editor.c:266-311 | cursor and paging keys move the offset by one, to a line bound, or to the column of a line one or 23 away |
| TextBuffer.ActRefines | src/tools/editor.c:262-313 | each key, paging included, acts on lines and cursor as on one string and one offset |
| TextBuffer.ScrollNearest | src/tools/editor.c:315-318 | the view moves only if the cursor left it, and then to the nearest place that shows it |
| TextBuffer.StepRefines | src/tools/editor.c:252-319 | each key changes text, offset and first visible line as on the flat text; paging up leaves the cursor on the last row or the top in view, paging down on the first row |
| TextBuffer.RunRefines | src/tools/editor.c:252-319 | text, offset and view over every run of keys are those of the flat machine, with the cursor in view after each |
| SaveFormat.SplitText | src/tools/editor.c:211-226 | splitting a printed document gives its lines back |
| SaveFormat.TextSplit | src/tools/editor.c:163-173 | joining split text gives it back |
| SaveFormat.ReopenIff | src/tools/editor.c:149-239 | save then open is the identity exactly when the text fits and does not end in an empty line after others |
| SaveFormat.EmptyLastLineLost | src/tools/editor.c:208-226 | the lines "a" and "" come back as "a" alone |
| SaveFormat.SavedWholeIff | src/tools/editor.c:149-187 | the file holds the whole text exactly if that is empty, or has at most 4096 bytes and a slot |
| SaveFormat.TooLongExample | src/tools/editor.c:163-173 | fifty-two lines of 79 characters are a document whose text is cut |
| SaveFormat.ClipLongest | src/tools/editor.c:216-219 | a line is shown up to its 79th character or the first NUL |
| SaveFormat.LoadCount | src/tools/editor.c:211-226 | opening shows as many lines as the file has, a final newline beginning none, and at most 256 |
| SaveFormat.LoadShows | src/tools/editor.c:211-226 | and they are the pieces between the newlines, in order |
| SaveFormat.LoadClean | src/tools/editor.c:204-226 | whatever the file holds, opening gives a document the editor can work on |
| Tmpfs.StoreAt | src/fs/tmpfs.c:42-53 | writing a slot updates the name-to-contents map at that name only |
| Tmpfs.RemoveAt | src/fs/tmpfs.c:65-74 | clearing a slot removes that name only |
| Tmpfs.FoundAgainIff | src/fs/tmpfs.c:42-47 | a file just created is found under its name exactly when that is shorter than 64 |
| Tmpfs.AddedDistinctIff | src/fs/tmpfs.c:28-36 | creation keeps names distinct exactly when the name, cut to 63 characters, is new |
| Tmpfs.LongNameLost | src/fs/tmpfs.c:42-47 | sixty-four letters on an empty file system |
| Tmpfs.FileSystem.FindFile | src/fs/tmpfs.c:15-22 | the first used slot with the name |
| Tmpfs.FileSystem.Create | src/fs/tmpfs.c:24-40 | adds an empty file under the name, cut to 63 characters; fails exactly when the name is new and all slots are used; names stay distinct exactly when the cut name is new |
| Tmpfs.FileSystem.Write | src/fs/tmpfs.c:42-53 | stores at most 4096 bytes under the name and changes no other; goes through null exactly for a long name and a free slot |
| Tmpfs.FileSystem.Read | src/fs/tmpfs.c:55-63 | the first bytes of the contents, or -1 |
| Tmpfs.FileSystem.Delete | src/fs/tmpfs.c:65-74 | removes the name, keeps the others and the count |
| Editor.InsertInLine | src/tools/editor.c:88-102 | the shifting loop puts one character into the row |
| Editor.DeleteInLine | src/tools/editor.c:109-113 | the shifting loop takes one character out of the row |
| Editor.SplitPrefix | src/tools/editor.c:211-221 | stopping the parse early leaves the first lines right |
| Editor.WrittenBound | src/tools/editor.c:155-165 | the save buffer never overflows |
| Editor.KeyCodes | src/tools/editor.c:256-313 | which byte is which key, and that every other one is ignored |
| Editor.Editor.InsertChar | src/tools/editor.c:77-105 | the buffer becomes the specified view |
| Editor.Editor.DeleteChar | src/tools/editor.c:107-130 | the buffer becomes the specified view |
| Editor.Editor.NewLine | src/tools/editor.c:132-147 | the buffer becomes the specified view |
| Editor.Editor.Print | src/tools/editor.c:163-173 | the save buffer holds exactly the joined lines |
| Editor.Editor.Parse | src/tools/editor.c:208-226 | the rows hold the kept pieces of the file, clipped |
| Editor.Editor.Open | src/tools/editor.c:189-239 | the document is what loading the file's first 4095 bytes gives, or one empty line |
| Editor.Editor.New | src/tools/editor.c:241-250 | one empty line |
| Editor.Editor.Rewrite | src/tools/editor.c:175-180 | the named file is replaced by the data up to 4096 bytes, or absent for none, and no other changes |
| Editor.Editor.Save | src/tools/editor.c:149-187 | the file holds the text up to its limit, is absent for an empty text, and nothing else changes |
| Editor.Editor.SaveThenOpen | src/tools/editor.c:149-239 | end to end: the same lines exactly under the stated condition |
| Editor.Editor.Round | src/tools/editor.c:252-319 | one key: the specified step, with the cursor in view |
| Checksum.FoldKeeps | src/net/net.c:52 | folding preserves the sum modulo 65535 and yields 0 only for 0 |
| Checksum.SwappedSums | src/net/net.c:47-53 | summing swapped words multiplies the sum by 256 modulo 65535, odd lengths included |
| Checksum.ByteOrderIndependent | src/net/net.c:47-54 | the stored bytes are those of the big-endian definition, for every buffer |
| Checksum.VerifiesIff | src/net/net.c:109-110 | a filled-in message recomputes to 0 exactly for the checksum or its other zero |
| Checksum.SumWords | src/net/net.c:48-51 | the 32-bit accumulator never wraps: it holds the sum of the native words |
| Checksum.IpChecksum | src/net/net.c:47-54 | the loops compute the folded complement of the sum |
| Checksum.TcpChecksum | src/net/net.c:56-71 | the sum over pseudo-header and segment, or 0 without memory |
| Checksum.TcpSumIs | src/net/net.c:56-71 | on the wire it is the complement of the sum of both addresses, the protocol, the length and the segment |
| Checksum.TcpVerifies | src/net/net.c:56-71 | a filled-in segment verifies at the receiver |
| Checksum.TcpLengthLimit | src/net/net.c:64-68 | it does for every segment of a length exactly up to 65523 |
| Checksum.SizingIff | src/net/net.c:92-93 | a frame is sent exactly when all of it fits, and no copy leaves it exactly when the length sum does not wrap |
| Checksum.OverrunExamples | src/net/net.c:283-284 | the smallest lengths that wrap, for both tests |
| Checksum.DroppedIff | src/net/net.c:282-299 | a segment is built and then refused exactly for 1447 to 1480 bytes of data |
| Checksum.SendIp | src/net/net.c:76-113 | for every 16-bit length: refused, overrun, or a frame with a header that verifies, the length, addresses and payload |
| Checksum.HeaderFields | src/net/net.c:287-294 | where a receiver finds ports, numbers, header length, flags and window |
| Checksum.SequenceSteps | src/net/net.c:300-302 | a SYN and a FIN take one number each, data one a byte |
| Checksum.BuildSegment | src/net/net.c:283-297 | the segment carries header and data, and its sum through the pseudo-header is 0 |
| Checksum.SendSegment | src/net/net.c:282-303 | the card gets a frame exactly if there is a route and at most 1446 bytes; both sums in that frame are 0; the sequence number advances for up to 1480 bytes, sent or not |
| Checksum.SendData | src/net/net.c:382-386 | an open connection answers the length, also for the data that was dropped |
| Scheduler.StepKeepsInv | src/process/scheduler.c:18-129 | each step keeps one running slot at most, the current one, pids by slot, and the count |
| Scheduler.RunKeepsInv | src/process/scheduler.c:18-129 | over every run of create, tick, yield and exit |
| Scheduler.CreateAdds | src/process/scheduler.c:18-68 | the lowest free slot gets a READY process with its pid and no slices, or stays free without a page; nothing else changes |
| Scheduler.YieldReadies | src/process/scheduler.c:125-129 | only the current state changes, to READY |
| Scheduler.ExitRemoves | src/process/scheduler.c:82-97 | the current slot becomes free and keeps the code, one fewer is in use, no slot is current, no other slot changes |
| Scheduler.ExitIsFinal | src/process/scheduler.c:70-129 | in every later run that creates no process the slot is neither runnable nor current |
| Scheduler.TickChanges | src/process/scheduler.c:99-123 | pids and exit codes stay; if the tick moves on, the slot left is READY, the one reached RUNNING, others as before |
| Scheduler.InitInvIff | src/process/scheduler.c:13-16 | initialising gives a sound table exactly when the count was 0 |
| Scheduler.ScanFollowsRing | src/process/scheduler.c:106-113 | the slot scan finds the next runnable slot in ring order |
| Scheduler.TickRotates | src/process/scheduler.c:99-123 | a tick moves one place along the ring and leaves the ring alone |
| Scheduler.EachOnceARound | src/process/scheduler.c:99-123 | n ticks make each of n runnable slots current exactly once |
| Scheduler.EachOnceInAnyWindow | src/process/scheduler.c:99-123 | the same for every window inside a longer run of ticks |
| Scheduler.SlicesAreGains | src/process/scheduler.c:102-104 | the slice counters are the charged ticks, modulo 32 bits |
| Scheduler.Fair | src/process/scheduler.c:99-123 | over any window of ticks from any sound table the slices of two runnable slots differ by at most one |
| Scheduler.NoStarvation | src/process/scheduler.c:18-129 | in every run without exit one of any 32 ticks makes a runnable slot current, whatever is created and whoever yields in between |
| Scheduler.TickNearer | src/process/scheduler.c:106-122 | a tick makes a runnable slot current or the current slot nearer to it |
| Scheduler.ChargedInARound | src/process/scheduler.c:99-123 | a round of ticks of a running table charges every runnable slot exactly once |
| Scheduler.ChargedIff | src/process/scheduler.c:99-123 | ticks charge a runnable slot, within a round and one tick, exactly when it is not alone, current and READY |
| Scheduler.YieldSticks | src/process/scheduler.c:125-129 | a lone process that yields becomes alone, current and READY |
| Scheduler.CreateUnsticks | src/process/scheduler.c:18-68 | a process created beside it ends that |
| Scheduler.LoneYielderUncharged | src/process/scheduler.c:99-129 | the table after create, tick and yield: no number of ticks changes it |
| Scheduler.InitKeepsCount | src/process/scheduler.c:13-16 | that table initialised again counts one process and has none |
| Scheduler.ProcessTable.Create | src/process/scheduler.c:18-68 | the first free slot is set up, or left free when a page is missing |
| Scheduler.ProcessTable.Exit | src/process/scheduler.c:70-97 | the current slot is freed and no slot is current |
| Scheduler.ProcessTable.Tick | src/process/scheduler.c:99-123 | the in-place tick is the specified one |
| Scheduler.ProcessTable.Yield | src/process/scheduler.c:125-129 | the current slot becomes ready and stays current |
| Scheduler.ProcessTable.Get | src/process/scheduler.c:136-140 | finds exactly the used slot that carries the pid |
| Scheduler.ProcessTable.Init | src/process/scheduler.c:13-16 | clears the table and the current slot, not the count |
| FatTable.FreeExact | src/fs/fat16.c:344-360 | freeing ends on every table and clears exactly the clusters on the walk |
| FatTable.FreeKeepsOthers | src/fs/fat16.c:344-360 | a chain with no cluster in common is walked as before |
| FatTable.VisitsStep | src/fs/fat16.c:345-358 | a walk is its first cluster and the walk from the next once that is cleared |
| Fat16.EntrySet | src/fs/fat16.c:10-17 | setting an entry changes that entry and no other |
| Fat16.ScanAddresses | src/fs/fat16.c:207-215 | the allocation scan and the walker address the same bytes |
| Fat16.TableSet | src/fs/fat16.c:348-356 | sector bytes refine a table of entries |
| Fat16.FreeDiskIsFree | src/fs/fat16.c:344-360 | freeing on the disk is freeing on the table, and touches no other sector |
| Fat16.FreeDiskExact | src/fs/fat16.c:344-360 | freeing zeroes exactly the bytes of the entries on the walk; every other byte of the disk stays |
| Fat16.FirstFreeIsLowest | src/fs/fat16.c:201-225 | allocation picks the lowest free cluster in range, or none when there is none |
| Fat16.AllocateMarks | src/fs/fat16.c:217-221 | the answered cluster's entry becomes 0xFFFF and no other entry changes; with the answer 0 nothing does |
| Fat16.FreeUndoesAllocateIff | src/fs/fat16.c:201-225 | freeing a fresh cluster restores every disk byte exactly when it lies below 0xFF8 |
| Fat16.FreshClusterStays | src/fs/fat16.c:201-225 | a disk whose first free cluster is 0xFF8: what allocation marks stays marked |
| Fat16.NextCluster | src/fs/fat16.c:9-19 | reads the entry |
| Fat16.FreeClusterChain | src/fs/fat16.c:344-360 | the loop ends and leaves the specified disk |
| Fat16.AllocateCluster | src/fs/fat16.c:201-225 | the nested scan marks the lowest free cluster |
| FatRead.StartSteps | src/fs/fat16.c:22 | the data area starts with cluster 2, and each cluster goes on where the one before it ends |
| FatRead.StartsApart | src/fs/fat16.c:22 | no two clusters share a sector |
| FatRead.ClustersJoin | src/fs/fat16.c:21-24 | clusters that follow each other are one stretch of sectors |
| FatRead.ClusterByte | src/fs/fat16.c:21-24 | every byte of a cluster by sector and offset |
| FatRead.FileByte | src/fs/fat16.c:178-195 | every byte of the data of a walk by link, sector and offset |
| FatRead.WalkEndsIff | src/fs/fat16.c:178 | a walk ends at all exactly when it has ended after 4086 links, as many as there are clusters |
| FatRead.ReadEndsIff | src/fs/fat16.c:178 | the read loop ends exactly when the walk has ended after 4086 links or the buffer is no larger than the file, and how soon |
| FatRead.ReadsForEver | src/fs/fat16.c:178-196 | a cluster that links to itself, an empty file and a one-byte buffer: the loop never ends |
| FatRead.BytesAre | src/fs/fat16.c:187-192 | the three bounds leave the first bytes that file, buffer and data have room for |
| FatRead.ReadRound | src/fs/fat16.c:178-196 | what was read stays a prefix of the concatenated clusters |
| FatRead.ReadCluster | src/fs/fat16.c:21-24 | the data of one cluster |
| FatRead.ReadFile | src/fs/fat16.c:173-198 | the result is the first min(size, buffer, data) bytes of the clusters read, and those are the whole walk unless the buffer filled up or a cluster was refused |
| FatNames.ParseFills | src/fs/fat16.c:26-48 | whatever is parsed from a name without spaces is canonical |
| FatNames.ParseUnparseIff | src/fs/fat16.c:26-62 | parse after unparse is the identity exactly on canonical names |
| FatNames.UnparseParseIff | src/fs/fat16.c:26-62 | unparse after parse capitalises exactly the 8.3 names |
| FatNames.ParseIs | src/fs/fat16.c:26-48 | what any name is read as, with long bases, several dots and all |
| FatNames.SqueezeAppend | src/fs/fat16.c:50-62 | spaces are dropped wherever they are |
| FatNames.BlankExtensionDropped | src/fs/fat16.c:55 | an extension that begins with a space is dropped, whatever follows |
| FatNames.InnerSpaceLost | src/fs/fat16.c:50-62 | "A B" in a directory comes back as "AB" |
| FatNames.SecondDotLost | src/fs/fat16.c:26-48 | "A.B.C" is read as "A.BC" |
| FatNames.ParseName | src/fs/fat16.c:26-48 | the loop fills the eleven bytes as specified |
| FatNames.UnparseName | src/fs/fat16.c:50-62 | the loop writes the dotted form, terminated |
| Pmm.SetBit | rust/src/pmm.rs:14-20 | setting a bit changes that bit of the byte only |
| Pmm.ClearBit | rust/src/pmm.rs:22-28 | clearing a bit changes that bit of the byte only |
| Pmm.SetOne | rust/src/pmm.rs:14-20 | marking a page changes that page only |
| Pmm.ClearOne | rust/src/pmm.rs:22-28 | unmarking a page changes that page only |
| Pmm.CountOne | rust/src/pmm.rs:104-107 | the number of held pages follows a change of one page |
| Pmm.CountFree | rust/src/pmm.rs:139-144 | total minus held is the number of pages left |
| Pmm.PageMap.Call | rust/src/pmm.rs:93-136 | each call is a step of its callers' books, which agree with the bitmap before and after |
| Pmm.RunBalanced | rust/src/pmm.rs:93-136 | over every run in which callers free what they own no page has two owners and none is lost |
| Pmm.PageMap.BitmapTest | rust/src/pmm.rs:30-36 | reads the page's bit |
| Pmm.PageMap.Init | rust/src/pmm.rs:42-87 | kernel, bitmap and screen pages are held and nothing else; the count is right |
| Pmm.PageMap.AllocPage | rust/src/pmm.rs:93-119 | the lowest page not held becomes held; null exactly when there is none or that is page 0 |
| Pmm.PageMap.FirstPageLost | rust/src/pmm.rs:93-136 | after freeing address 1 the next allocation answers null and leaves all as before |
| Pmm.PageMap.FreePage | rust/src/pmm.rs:125-136 | exactly that page becomes available; a second free changes nothing; page 0 stays reserved unless an address inside it is freed |
| Pmm.PageMap.FreeCount | rust/src/pmm.rs:139-144 | the cached count answers the number of pages left |
| Vmm.NewTable | src/memory/vmm.c:14-31 | a table on a fresh page loses and invents no translation, and directory entries stay distinct held pages |
| Vmm.SetMapping | src/memory/vmm.c:97-100 | one table entry changes one translation |
| Vmm.UserNeverGranted | src/memory/vmm.c:24-28 | whatever a page's flags, the directory grants writing and never user access |
| Vmm.AddressSpace.FindTable | src/memory/vmm.c:14-20 | the table of a directory slot, or none; nothing changes |
| Vmm.AddressSpace.GetPageTable | src/memory/vmm.c:14-31 | finds or makes the table without changing the flat map; fails exactly when it may not or cannot |
| Vmm.AddressSpace.MapPage | src/memory/vmm.c:90-103 | updates the flat map at one page, unless out of pages |
| Vmm.AddressSpace.UnmapPage | src/memory/vmm.c:105-116 | removes one page from the flat map |
| Vmm.AddressSpace.GetPhysical | src/memory/vmm.c:118-126 | looks the flat map up |
| Vmm.AddressSpace.BuildTable | src/memory/vmm.c:41-59 | one directory slot translates to itself, or stays empty without a page |
| Vmm.AddressSpace.Init | src/memory/vmm.c:33-88 | only the first 64 MB and top 4 MB translate, to themselves; all of them with 18 pages free |
| Ipc.RunIsFifo | rust/src/ipc.rs:61-167 | over every run what was removed and what is queued is what was accepted, in order, at most 63 at a time |
| Ipc.RunDelivers | rust/src/ipc.rs:118-167 | over every run the bytes delivered are those of the first messages accepted, each cut to its receiver's buffer |
| Ipc.SendAnswers | rust/src/ipc.rs:80-109 | -1 exactly with 63 messages queued or a receiver that is no process; else the first 256 bytes are queued under both names and counted |
| Ipc.ReceiveAnswers | rust/src/ipc.rs:131-167 | the oldest message is taken exactly if its sender is asked for or any will do, and as much as fits is delivered and counted |
| Ipc.RunMatches | rust/src/ipc.rs:118-167 | over every run each receive that names a sender gets a message of that sender |
| Ipc.ItemsAppend | rust/src/ipc.rs:81-106 | advancing the tail appends the message written there |
| Ipc.HeadTaken | rust/src/ipc.rs:131-163 | the head slot is in use, and taking it removes the first message |
| Ipc.MessageQueue.Init | rust/src/ipc.rs:44-53 | an empty queue |
| Ipc.MessageQueue.Send | rust/src/ipc.rs:61-110 | appends the first 256 bytes, or answers -1 when full or for a receiver out of range |
| Ipc.MessageQueue.Receive | rust/src/ipc.rs:118-167 | delivers the first bytes of the oldest message if its sender matches; the unused-head branch is unreachable |
| Numbers.DigitsMean | src/libc/string.c:109-113 | the digits denote the number in every base from 2 to 16 |
| Numbers.DigitsInBase | src/libc/string.c:143-144 | every character is a digit of the base |
| Numbers.NoLeadingZero | src/libc/string.c:142-146 | the first digit is not 0 |
| Numbers.LengthIff | src/libc/string.c:109-113 | a number has at most k digits exactly when it lies below the base to the k, in every base from 2 to 16 |
| Numbers.UnsignedLength | src/libc/string.c:131-161 | a 32-bit number prints in 10 characters in base 10, 8 in base 16 and 32 in any base |
| Numbers.LongestReached | src/libc/string.c:131-161 | the largest number needs that many in bases 2, 10 and 16 |
| Numbers.SignedLength | src/libc/string.c:89-129 | the same for itoa, with one character more in base 10 |
| Numbers.SignedMeans | src/libc/string.c:89-129 | a negative number prints as a sign and its magnitude in base 10, and as its 32-bit pattern in every other base |
| Numbers.ReadsAll | src/libc/string.c:163-177 | any number of spaces, at most one sign, all digits up to the first other character, and nothing of the rest |
| Numbers.RoundTrip | src/libc/string.c:89-177 | reading a printed number gives it back, without overflow exactly above the minimum |
| Numbers.ReverseInPlace | src/libc/string.c:118-126 | the swapping loop reverses the digits in place |
| Numbers.EmitDigits | src/libc/string.c:109-113 | the digits come out least significant first |
| Numbers.Uitoa | src/libc/string.c:131-161 | the buffer holds the digits, terminated |
| Numbers.Itoa | src/libc/string.c:89-129 | the buffer holds sign and digits, terminated |
| Numbers.Atoi | src/libc/string.c:163-177 | the number denoted by spaces, sign and digits, with no step out of range |

## Left out

- Heap.KernelHeap.Krealloc: requests that grow the heap by a wrapped page count are excluded, because the copy would go to memory that is not mapped; so are pointers that were freed before.
- Heap.KernelHeap.Kfree: non-null pointers below 20 are excluded, and so are headers with the magic that neither are on the list nor still name the free block they lie behind and its successor.
- Heap.KernelHeap.Kmalloc: the pages the allocator can still hand out are assumed to fit the 32-bit address space above the heap, as its limit of 65536 pages gives.
- Heap.KernelHeap.MapPages: the page table updates of growth are not part of the heap model; page mapping is modelled in `Vmm`.
- HeapList.MallocAlignedHandsOut: says 4-aligned, not page-aligned, because the code answers with an address just behind the header.
- Checksum.SendIp: what an overrun writes past the frame is not modelled, nor are routing and address resolution.
- Checksum.SendSegment: the same; connection state beyond the sequence number is not modelled.
- Tmpfs.FileSystem.Write: what the store through a null pointer does is not modelled.
- Editor.Editor.Save: messages on the status line and drawing are not modelled.
- Scheduler.ProcessTable.Exit: stack pages and the final halt are not modelled; the address it frees for the user stack is a virtual one.
- Scheduler.ProcessTable.Create: names, stacks and register images are not modelled, only whether their pages were found.
- FatRead.ReadFile: the lookup in the cached file list is not modelled; the data is a value instead of a caller's buffer, and the FAT itself is read without errors.
- Fat16.FreeClusterChain: the disk answers without errors.
- Vmm.AddressSpace.MapPage: tables are reached by physical address; switching, creating and freeing directories, and the processor's translation cache, are not modelled.
- Numbers.Atoi: inputs whose digits exceed the 32-bit range are excluded, being undefined in C.
- Interrupts, port access, drivers, the shell, system calls and the text interface: operations are atomic steps.
- Writing FAT16 files: the caller takes the byte count for a failure code and rolls every non-empty write back.
- TCP, ARP, UDP and DNS state: little can be said beyond single branches.
