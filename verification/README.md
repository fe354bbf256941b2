# ZiranOS kernel: a Dafny verification of its memory stack, filesystem, scheduler and input path

This project models the parts of the ZiranOS kernel whose correctness is an invariant
over every run, and proves those invariants. Each source file has its own modules here,
in the form the source has: objects that are changed in place are classes, loops are
loops, expressions are functions. Each method is proved against a specification
function or a statement about its old and new state, and the theorems are about those.

`dafny verify dfyconfig.toml` checks the whole project.

## What is modelled

* **Physical memory** (`Bits`, `FrameAllocator`, `Multiboot`, `BootMemory`): the bitmap as
  64-bit words against a set of frames; the boot-information tag walk and region iterator
  against an encoder that lays a tag list out as section 3.6 of the Multiboot2
  specification describes it; and `init` from bytes to free set.
* **Paging** (`PageWalk`, `PageTree`, `FrameAddress`, `PageIndices`, `PagingFormat`, `Paging`,
  `AddressSpace`, `PagingRuns`, `Masks`): table memory as a map from table frame to 512 entry words, frames from
  the allocator model, 4-level paging as in section 4.5 of the Intel SDM Volume 3A. Every
  table has a place of its own, the indices that lead to it from the root, so the tables
  form a tree. The walks are tied to one abstract map from page to (frame, user, writable),
  whole runs to a plain address space of pages, places with a table, and free frames, and
  both to the processor's own walk of the tables.
* **Heap** (`HeapLayout`, `Heap`, `HeapRuns`): the list nodes are words of the heap's own
  memory. All stores of the allocator go through one method whose precondition says that
  the word belongs to no live block. Whole runs are tied to a plain first-fit allocator.
* **ZranFS** (`Paths`, `Fs`, `FsValidation`, `FsNesting`, `FsAccepts`, `FsAnswers`,
  `FsConfinement`, `FsImage`): the validator over arbitrary bytes with its high-water mark
  and depth cap, the three readers, and the writer.
* **System call** (`SysWrite`): `sys_write` over the address space.
* **Scheduler** (`Scheduler`, `Rotation`): task table, ready queue, current task.
* **Context switch** (`SwitchAsm`, `TaskMachine`, `TaskSpawn`, `TaskFairness`): `switch_context` instruction by
  instruction, and a state machine over one processor, all stacks, the interrupt flag, the
  scheduler and its lock, in which a timer tick may come between any two steps while the
  flag is set. Kernel code is cut at every point where the flag, the lock, the scheduler
  or the stack pointer changes; task code is any code that writes no other task's stack.
* **Input ring** (`Ring`): `push` and `pop` as single loads and stores, any interleaving.
* **Shell text** (`ShellPaths`, `Base64`): path normalisation, `cd`, base64.

The file lists and secret of the boot image, the number of workers and turns, the ring
capacity and the heap's place and size are parameters.

## Where the code and its documentation differ

The model follows the code.

* `mount` checks the root table against the image length only, not against `data_end`
  (src/fs.rs:229-233). So for every mountable image, strict reads depend on no byte from
  `data_end` on if and only if the root table ends by then
  (`FsConfinement.NonInterferenceExactly`). `OpenImageInterferes` gives a mountable image
  for which they do.
* A single cooperative worker does not finish before idle's `yield_now` returns: its first
  yield finds the queue empty and goes to idle (src/task.rs:259-273, 400-401). All workers are
  finished at that point if and only if their number is not 1 or they take no turns.
* `map_user_page` asserts that the 64-bit address is at least 1 GiB (src/paging.rs:404-409),
  but the walk looks at bits 12 to 47 only. An address with higher bits set can pass the
  assertion and still fail with `HugePage`, which its documentation means to exclude;
  `AddressSpace.HighAddressInWindow` gives one. The contract of `MapUserPage` says when:
  exactly if bits 30 to 47 are zero. Nothing becomes accessible by it.
* `reserve` rounds its end up with a plain addition (src/frame_allocator.rs:104). If that
  wraps around 2^64 (builds without overflow checks), nothing is reserved; `Reserve` and
  `Init` state both cases. The kernel's own call does not get there: `init` passes linker
  symbols of an image in low memory and the end of the boot information, which the boot
  tables map below 1 GiB.

## How machine detail is represented

* Entry words, flags and bitmap words are 64-bit vectors. Byte counts and addresses used in
  arithmetic are natural numbers with their 64-bit bounds, wraps and saturations written
  out. `align_up` and the other mask roundings are divisions, proved equal to the source's
  masks on powers of two in `Masks`; the shifts of base64 are sums of digits.
* Panics of the source are a `false` (no memory map, no usable frame), a `Panic` or
  `Panicked` result (an unreasonable alignment, a table frame from 1 GiB on), or, for the
  first three tables, the precondition that three frames below 1 GiB are free.
* Memory read by `sys_write` is a function from address to byte; serial and screen output
  is the `console` sequence.
* The argument of `spawn` is in a caller-saved register or spilled; it is a field of the
  calling task, set by the call.
* Stack memory is a map from address to 8-byte word. The registers are the six
  callee-saved ones, `rsp`, `rip` and the interrupt flag. A flag kept in a register over a
  critical section is kept on the stack. The interrupt frame has the words of the modelled
  registers.
* Atomic operations are sequentially consistent; volatile access and TLB maintenance do
  nothing to the table model.
* Names and paths are byte strings.

## Model

| member | source | states |
|---|---|---|
| Bits.OneBit | src/frame_allocator.rs:82-94 | setting or clearing one bit of a word changes that bit and no other, for all bit pairs |
| Bits.TrailingOnes | src/frame_allocator.rs:228-236 | the count of trailing ones is the lowest clear bit |
| Frames.FrameAllocator.SetUsed | src/frame_allocator.rs:82-84 | removes exactly this frame from the free set |
| Frames.FrameAllocator.SetFree | src/frame_allocator.rs:87-89 | adds exactly this frame to the free set |
| Frames.InsideMeans | src/frame_allocator.rs:153-170 | a frame counts as usable iff all its 4096 bytes lie in a region of kind 1 and below 4 GiB |
| Frames.MeetsMeans | src/frame_allocator.rs:99-105 | a frame meets a range iff one of its bytes is in it |
| Frames.FrameAllocator.Reserve | src/frame_allocator.rs:99-111 | every frame that meets the range becomes used, no other changes, the count stays the number of free frames; a range whose rounding wraps reserves nothing |
| Frames.FrameAllocator.FreeRegion | src/frame_allocator.rs:153-177 | frees exactly the frames wholly inside a usable region and below 4 GiB |
| Frames.FrameAllocator.Init | src/frame_allocator.rs:129-201 | succeeds iff some frame lies in a usable region; then a frame is free iff it does and is neither frame 0 nor meets a reserved range |
| Frames.FrameAllocator.Alloc | src/frame_allocator.rs:228-241 | none iff nothing is free, else the lowest free frame, held by nobody, leaves the free set |
| Frames.FrameAllocator.Release | src/frame_allocator.rs:247-266 | the frame is free again and no longer held; frames out of range change nothing; the count stays exact |
| Multiboot.MemoryMap | src/multiboot.rs:89-143 | the tag loop finds the window of the first memory-map tag before an end tag or a malformed one, clamped to the structure, with a stride of at least one entry |
| Multiboot.MemoryMapIter.Next | src/multiboot.rs:157-172 | yields the first of the remaining regions and leaves the others; none iff there are none; terminates |
| Multiboot.EntriesReadBack | src/multiboot.rs:154-173 | entries laid out with any stride of at least 24 bytes are yielded as written, in order |
| Multiboot.TagsReadBack | src/multiboot.rs:89-143 | any laid-out tag list parses to the entries of its first memory-map tag |
| Multiboot.ParserReadsLayout | src/multiboot.rs:72-172 | the whole structure, at any address in mapped memory, parses to the regions it was laid out from |
| Multiboot.FourBytesSuffice | src/multiboot.rs:94-140 | for arbitrary tags too, the parser reads at most four bytes past the structure |
| Multiboot.FindMapExactly | src/multiboot.rs:89-143 | on any bytes: a window is found iff some tag is of type 6, of at least 8 bytes and with an entry size of at least 24, and every tag before it has a whole header, a size of at least 8 and another type than 0 and 6; it runs from behind 16 bytes to the tag's or the structure's end |
| Multiboot.RemainingCount | src/multiboot.rs:157-172 | as many regions as whole strides fit the window |
| Multiboot.RemainingAt | src/multiboot.rs:157-172 | the k-th comes from the k-th stride: base, length and kind at 0, 8 and 16 |
| Multiboot.MapTagBytes | src/multiboot.rs:112-138 | the laid-out map tag in figures: type 6, its size, its entry size, entries from byte 16, padded to 8 |
| Multiboot.OtherTagBytes | src/multiboot.rs:103-142 | any other tag has its own type, neither 0 nor 6, and its size, padded to 8 |
| Multiboot.EntryLayout | src/multiboot.rs:154-173 | an entry's base, length and kind as little-endian numbers of 8, 8 and 4 bytes |
| BootMemory.Collect | src/frame_allocator.rs:153-177 | consuming the iterator gives its regions in order |
| BootMemory.Init | src/frame_allocator.rs:129-201 | from any bytes: success and free set in terms of what the parser yields |
| BootMemory.InitFromLayout | src/frame_allocator.rs:129-201 | from a laid-out tag list: frame i is free iff inside one usable region of the map, below 4 GiB, and apart from frame 0, the kernel and the boot information |
| PageTree.LoosenKeeps | src/paging.rs:438-446 | OR-ing USER into a link changes no translation and no leaf's user bit, on any path |
| PageTree.AttachKeeps | src/paging.rs:447-452 | linking a fresh zeroed table changes no translation and no leaf's user bit, on any path |
| PageTree.AttachTree | src/paging.rs:447-452 | linking a fresh table keeps the tables a tree: every table but the root is linked from a table, one index below it, by a writable entry |
| PageTree.PlacesDiffer | src/paging.rs:285-461 | two tables never have the same place in the tree |
| PageTree.PlaceLeads | src/paging.rs:285-461 | every table is reached from the root along its own place, and no other table is |
| PageTree.MissingIsNeed | src/paging.rs:427-453 | outside the window, the tables a descent creates are exactly those of the three places on the path that have none |
| PageTree.LeafElsewhere | src/paging.rs:455-461 | writing a last-level entry changes no walk of any other page |
| PageTree.UserWalkLeaf | src/paging.rs:225-247 | user access at every level implies a user leaf |
| PageTree.ReachWrites | src/paging.rs:423-452 | every link on a walk is writable, so the leaf alone decides on writing |
| PageTree.ReachLeaf | src/paging.rs:455-461 | the entry of the last-level table reached is the leaf of every address of the page |
| PageTree.HugeMeansWindow | src/paging.rs:433-437 | a large page met on a walk is in the identity window |
| Paging.LoosenAgrees | src/paging.rs:438-446 | after loosening, all three walks still agree with the same abstract map at every address |
| Paging.AttachAgrees | src/paging.rs:447-452 | the same after linking a table |
| Paging.MapAgrees | src/paging.rs:455-461 | after the leaf write they agree with the abstract map updated at this page alone, with its user and write flags |
| Paging.LeafWritten | src/paging.rs:455-461 | the word just written is the leaf that a walk of any address of the page comes to |
| Paging.UnmapAgrees | src/paging.rs:479-488 | after the leaf is cleared they agree with the abstract map less this page |
| Paging.BuiltAgrees | src/paging.rs:285-305 | the tables first built form a tree, hold the identity window and agree with the empty map at every address |
| PagingFormat.WalksAreTheProcessors | src/paging.rs:120-163 | on any table memory: `translate` and the walks for user and write access come to what the processor's own walk of section 4.5 of the Intel SDM Volume 3A, written out in figures, comes to |
| PagingFormat.LeafBits | src/paging.rs:455-461 | a leaf holds the frame, present, the user bit as asked and every bit of the flags |
| PagingFormat.LinkBits | src/paging.rs:447-452 | a link holds the table, present, writable and the user bit as asked, and nothing else |
| PagingFormat.WindowBits | src/paging.rs:294-298 | entry x of the window is the present, writable 2 MiB page at x * 2 MiB |
| PageIndices.IndexIs | src/paging.rs:90-92 | the table index at a level is that base-512 digit of the page number |
| FrameAddress.FrameAddrInjective | src/frame_allocator.rs:228-238 | different frames have different addresses |
| FrameAddress.PageOfNumber | src/paging.rs:206-217 | addresses in the same 4096-byte block are in the same page |
| AddressSpace.ZeroFrame | src/paging.rs:264-271 | 512 zero entries |
| AddressSpace.AddressSpace.constructor | src/paging.rs:285-305 | the invariant holds: tree, window, agreement with the empty map, free frames hold no table; three free frames below 1 GiB are all that is asked |
| AddressSpace.AddressSpace.AllocTable | src/paging.rs:275-279 | a zeroed frame outside the tables iff a frame below 1 GiB is free; exhausted iff none is free at all; otherwise the panic |
| AddressSpace.AddressSpace.MapStep | src/paging.rs:427-453 | one level of the descent keeps the invariant and every page, arrives at the next table on the path, and uses a frame exactly if that table was missing |
| AddressSpace.AddressSpace.MapInner | src/paging.rs:416-461 | succeeds iff bits 30 to 47 are not all zero and the free frames below 1 GiB suffice for the tables missing on the path; each failure has its exact condition, and leaves exactly the tables and frames stated; a failing call changes no page, a successful one exactly its own; the page's leaf then holds its frame, the user bit as asked and every bit of the flags |
| AddressSpace.AddressSpace.MapPage | src/paging.rs:378-380 | a supervisor mapping of the rounded frame, all else unchanged; the exact outcome as for `MapInner` |
| AddressSpace.AddressSpace.MapUserPage | src/paging.rs:404-411 | a user mapping, all else unchanged, failures included; the exact outcome as for `MapInner` |
| AddressSpace.AddressSpace.TakeOther | src/heap.rs:247-256 | a frame allocated for something else, as between the heap's mapping calls, changes no table and no page |
| AddressSpace.HighAddressInWindow | src/paging.rs:404-437 | an address that passes the assertion and lies in the identity window |
| AddressSpace.AddressSpace.UnmapPage | src/paging.rs:466-489 | true iff the page was mapped by such a call; the page is gone, all else unchanged |
| AddressSpace.AddressSpace.Translate | src/paging.rs:130-163 | the identity below 1 GiB, and exactly the mapped pages elsewhere: a byte at offset k of a mapped page goes to byte k of its frame |
| AddressSpace.AddressSpace.PageUserAccessible | src/paging.rs:225-247 | true iff the page is mapped for the user |
| AddressSpace.AddressSpace.UserRangeOk | src/paging.rs:186-218 | true iff the range is empty, or ends by 2^47 without wrapping and every byte of it lies in a user page |
| PagingRuns.Perform | src/paging.rs:378-489 | one call of any kind, or a frame taken by others, does to the tables what it does to the abstract space, outcome included |
| PagingRuns.Run | src/paging.rs:130-489 | any run of mapping calls, failing ones included, does what the plain space of pages, places and free frames does; then, at every address, the processor's walk gives the identity below 1 GiB, and elsewhere faults iff the last successful call on the page was no mapping, and otherwise gives the frame of that call at the same offset, user access iff it was `map_user_page`, write access iff its flags had the bit |
| PagingRuns.RunRefines | src/paging.rs:130-489 | the same from the agreement of tables and abstract map |
| PagingRuns.PagesAreLast | src/paging.rs:378-489 | in an abstract run a page is mapped as the last successful call on it says |
| PagingRuns.UnmapFinds | src/paging.rs:466-489 | an unmap succeeds iff the last successful call on its page was a mapping |
| PagingRuns.FramesSuffice | src/paging.rs:427-453 | with three free low frames for every call, a mapping succeeds iff it is outside the window |
| SysWrite.WriteCall.Write | src/interrupts.rs:465-519 | rejects iff more than 256 bytes are asked for or, when validating, the range ends past 2^47 or has a byte on a page that is not the user's; then nothing changes; else the buffer and the console get exactly the bytes at ptr + 0, ptr + 1, ..., len - 1 |
| SysWrite.WriteCall.Emit | src/interrupts.rs:494-519 | the buffer's first bytes and the output are the bytes of the range, the rest of the buffer stays |
| HeapLayout.SizeAlignFacts | src/heap.rs:181-188 | a rounded request is at least a node, a multiple of 8, at least as large and as aligned as asked |
| HeapLayout.SizeAlignExactly | src/heap.rs:181-188 | panics iff size + max(align, 8) - 1 exceeds 2^63 - 1; else the alignment is max(align, 8) and the size the least multiple of it that is not below the request, or 16 if that is more |
| HeapLayout.AlignUpFacts | src/heap.rs:52-54 | rounding up gives the least multiple not below |
| Masks.AlignUpIsMask | src/heap.rs:52-54 | on powers of two, rounding up by division is the mask `(addr + align - 1) & !(align - 1)` on 64-bit words |
| Masks.OtherMasks | src/multiboot.rs:137-139 | the same for the parser's step to the next tag, the top of a new stack and the page of an address |
| HeapLayout.FirstFit | src/heap.rs:117-129 | the first region that fits, with none before it fitting |
| HeapLayout.FitsExactly | src/heap.rs:135-146 | a region yields p iff p is the least multiple of the alignment from its start on, the request ends by 2^64 - 1, and nothing or at least 16 bytes are left behind it |
| HeapLayout.FirstFitExactly | src/heap.rs:117-129 | first fit fails iff the request fits nowhere, and otherwise takes the first place where it fits |
| Heap.PushThreaded | src/heap.rs:102-113 | writing a node in front keeps the list threaded through memory, now with the new region first |
| Heap.UnlinkThreaded | src/heap.rs:117-129 | clearing a node's link and moving its predecessor's on leaves the list without that region |
| Heap.CarveFacts | src/heap.rs:135-163 | block and tail cut from a region are sound, aligned and apart from each other and from all else |
| Heap.FreeListHeap.constructor | src/heap.rs:92-94 | the invariant holds with the whole heap as one region |
| Heap.FreeListHeap.AddFreeRegion | src/heap.rs:102-113 | the region is first in the list; no word of a live block is written |
| Heap.FreeListHeap.FindRegion | src/heap.rs:117-129 | unlinks exactly the first fit, or changes nothing; no word of a live block is written |
| Heap.FreeListHeap.Alloc | src/heap.rs:148-163 | null iff the request fits no region (in figures, not by the allocator's own test); else the place in the first region that it fits, meeting the layout, that region cut there with its tail first in the list; the invariant (list acyclic in memory, regions sound, disjoint from each other and from live blocks, bytes conserved) holds and live blocks are untouched |
| Heap.FreeListHeap.Dealloc | src/heap.rs:165-176 | the block's bytes become the first region; other live blocks are untouched |
| Heap.FreeListHeap.WriteLive | src/heap.rs:203-214 | whatever the holder of a block writes in it, the invariant holds |
| Heap.FreeListHeap.Stats | src/heap.rs:225-240 | the sum of the free regions; used is live bytes plus gaps, the subtraction never saturates |
| Heap.FreeListHeap.DeallocThenAlloc | src/heap.rs:148-176 | in every state, freeing a block and asking for its layout gives the same address |
| HeapRuns.Run | src/heap.rs:148-176 | any run of allocations, frees and writes is answered as by a plain first-fit allocator on a list of regions, with the same regions, blocks and gaps at the end; every word written into a block still held is in memory as written; no gaps if no alignment exceeds 8; the heap's invariant and conservation hold |
| HeapRuns.AllocatedExactly | src/heap.rs:148-163 | the plain allocator of those runs in figures: panic, null and the place of every block by the request and the regions alone |
| HeapRuns.Serve | src/heap.rs:148-176 | one request of any kind |
| HeapRuns.Ask | src/heap.rs:148-163 | an allocation does to regions and blocks what first fit does, and keeps the words holders wrote |
| HeapRuns.ReturnBlock | src/heap.rs:165-176 | a free puts the block in front, and keeps the words of all other blocks |
| Paths.SplitJoin | src/fs.rs:260-263 | splitting at '/' distributes over joining with '/' |
| Fs.WalkTable | src/fs.rs:349-402 | the high-water mark never falls and stays in the image; validation terminates by the unread rest of the image, without the depth cap |
| Fs.ValidateDir | src/fs.rs:349-402 | the loop and recursion compute exactly that: error, mark, tables scanned and number of calls; no call is made more than one level below the cap |
| Fs.MountInner | src/fs.rs:194-252 | the three readers' result for every image, in order of checks; no call at a depth above 33 |
| Fs.FindChild | src/fs.rs:276-289 | the first entry with the name, and it is valid if its table is |
| Fs.ResolvePath | src/fs.rs:258-271 | the loop is the descent through the components, from a mounted image |
| Fs.Descend | src/fs.rs:258-271 | from a valid node every path leads to a valid node or an error |
| FsValidation.WalkTableOk | src/fs.rs:349-402 | an accepted table is in bounds at every depth, each child table after its parent |
| FsValidation.MountedMeansTotal | src/fs.rs:152-323 | after any mount, every path resolves inside the image or to an error |
| FsValidation.ListedIsReachable | src/fs.rs:258-309 | for every directory path and name: one level further down is the first listed entry of that name, and nothing if none is listed |
| FsValidation.WalkTableWork | src/fs.rs:349-402 | non-empty tables visited rise strictly between the two marks; calls are bounded by their length |
| FsValidation.ValidationIsLinear | src/fs.rs:337-402 | the tables that `ValidateDir` scans are pairwise disjoint, their lengths fit the image less 16, and its calls number at most 1 + (length - 16) / 32, under any depth cap |
| FsValidation.WalkTableRefines | src/fs.rs:380-394 | with the lower ceiling the walk is the same unless an entry escapes, and then the error is `ExtentEscapesData` |
| FsValidation.StrictRefinesLoose | src/fs.rs:152-171 | strict accepts iff loose does and every entry in the tree ends by `data_end`; otherwise it fails with exactly `ExtentEscapesData`; both accepting means the same filesystem |
| FsValidation.Tier2RelaxesSize | src/fs.rs:182-217 | loose accepts iff tier 2 does and the declared size is exact, with the same filesystem |
| FsNesting.WalkTableCapped | src/fs.rs:357-359 | a walk accepted under one cap is the same under another if the tree's nesting fits that, and otherwise fails with exactly `TooDeep` |
| FsNesting.ChainBound | src/fs.rs:337-341 | the nesting bounds every chain of directory entries one below another |
| FsNesting.LongestChain | src/fs.rs:337-341 | and some chain is as long |
| FsNesting.MountIsCapped | src/fs.rs:337-402 | an image that passes every check but the cap is mounted iff at most 32 directory entries lie one below another; else the error is `TooDeep` |
| FsNesting.NoDeepChain | src/fs.rs:337-341 | an image with a longer chain is never mounted |
| FsAccepts.WalkTableDecided | src/fs.rs:349-402 | a well-formed tree is accepted iff it is not too deep, its entries end by the ceiling and its tables follow one another in preorder; otherwise the error is that of a condition that fails |
| FsAccepts.MountExactly | src/fs.rs:194-252 | once the header is accepted, the exact condition on the tree under which each reader mounts the image |
| FsAnswers.HeaderExactly | src/fs.rs:194-238 | each header error's condition on the bytes themselves, and their order |
| FsAnswers.AcceptedHeader | src/fs.rs:194-252 | a mounted image has the magic, version 3, a fitting size, `data_end` and root table, and the count at bytes 6 and 7 |
| FsAnswers.EntryExactly | src/fs.rs:293-309 | name, offset, length and kind of an entry as bytes 0 to 19 up to the first NUL, and as little-endian numbers at 20, 24 and 28 |
| FsAnswers.TableRejected | src/fs.rs:357-369 | the first of four conditions that a table fails is its error |
| FsAnswers.EntryRejected | src/fs.rs:371-399 | the first of three conditions that an entry fails is the walk's error |
| FsAnswers.AnswersExactly | src/fs.rs:293-323 | reading succeeds iff the path names a file, listing iff it names a directory, each refusing the other kind with its own error; what names nothing fails both alike |
| FsAnswers.BelowNoDirectory | src/fs.rs:258-271 | a name below a file is `NotADirectory`; below a path that fails, the same failure |
| FsAnswers.SlashesAlone | src/fs.rs:258-271 | the empty path and "/" name the root; trailing and doubled slashes change nothing |
| LittleEndian.LittleEndianReads | src/fs.rs:404-414 | `read_u16_le` and `read_u32_le` give the base-256 number, least significant byte first |
| FsConfinement.WalkTableAgrees | src/fs.rs:349-402 | images equal below the ceiling are validated alike |
| FsConfinement.StrictConfines | src/fs.rs:194-323 | after a strict mount no path resolves past `data_end`, to a file or a directory, unless it names the root and the root table goes past it |
| FsConfinement.StrictNonInterference | src/fs.rs:194-323 | if the root table ends by `data_end`, the bytes from there on influence neither mount, error included, nor any answer |
| FsConfinement.SpoiledRootFails | src/fs.rs:225-252 | one byte past `data_end` in the root table turns an accepted image into a rejected one |
| FsConfinement.NonInterferenceExactly | src/fs.rs:194-252 | for every mountable image: non-interference holds iff the root table ends by `data_end` |
| FsConfinement.OpenImageInterferes | src/fs.rs:225-252 | the failing case exists: a 48-byte image that strict mount accepts and whose answers depend on bytes past `data_end` |
| FsImage.WriteEntry | src/fs.rs:425-434 | appends the 32 entry bytes |
| FsImage.WriteTable | src/fs.rs:492-503 | appends a table whose offsets accumulate the data lengths |
| FsImage.WriteData | src/fs.rs:505-511 | appends the contents in order |
| FsImage.BootImage | src/fs.rs:450-518 | the image is superblock, root table, docs table, data, secret |
| FsImage.TableReadsBack | src/fs.rs:425-434 | each written entry is read back with its name, offset, length and kind |
| FsImage.DataReadsBack | src/fs.rs:505-511 | each file's bytes stand at the offset its entry names |
| FsImage.DiskMounts | src/fs.rs:450-518 | strict mount accepts every such image |
| FsImage.RootListingReadsBack | src/fs.rs:293-309 | `/` lists the root files and docs |
| FsImage.DocsListingReadsBack | src/fs.rs:293-309 | `/docs` lists the docs files |
| FsImage.FilesReadBack | src/fs.rs:313-323 | every file reads back byte for byte |
| FsImage.RoundTrip | src/fs.rs:436-518 | all of this together, and no path at all resolves to a byte from `data_end` on, where the secret is |
| FsImage.DiskInFigures | src/fs.rs:450-518 | the disk's first bytes, its length and the paths "/name", "/docs" and "/docs/name" |
| Scheduler.SpawnInv | src/task.rs:185-198 | spawning keeps the queue and state invariant |
| Scheduler.YieldInv | src/task.rs:252-279 | so does yielding |
| Scheduler.ExitInv | src/task.rs:314-334 | so does exiting, which leaves the task Finished |
| Scheduler.FinishedStays | src/task.rs:259-273 | in every later state a finished task is finished, not queued and not current |
| Scheduler.Waiting | src/task.rs:252-279 | in any run a queued task moves up one place per yield and none per spawn |
| Scheduler.Fairness | src/task.rs:252-334 | the task at queue position k becomes current at exactly the (k+1)-th later yield, whatever spawns and exits intervene |
| Scheduler.SchedulerCell.SpawnTask | src/task.rs:185-198 | the fields after a spawn |
| Scheduler.SchedulerCell.YieldNow | src/task.rs:252-279 | the fields after a yield: the head of the queue is current, idle if there is none; no switch iff the current task stays |
| Scheduler.SchedulerCell.TaskExit | src/task.rs:314-334 | the fields after an exit; it always switches away |
| Rotation.TurnOver | src/task.rs:252-279 | a turn in round r of worker j leads to the next worker, or to the next round |
| Rotation.WorkerReturns | src/task.rs:314-334 | workers finish in spawn order, and the last one gives way to idle |
| Rotation.LoneWorkerYields | src/task.rs:259-273 | a single worker's first yield makes idle current with the worker still queued |
| Rotation.RunWorkers | src/task.rs:365-410 | idle is back with all n workers finished iff n is not 1 or there are no turns; then the log has n * m entries, entry i by worker i mod n + 1 |
| Rotation.RepeatedAt | src/task.rs:365-410 | entry i of the log is worker i mod n + 1 |
| SwitchAsm.ParkThenResume | boot/switch.asm:33-48 | popping a pushed frame gives the same registers, stack pointer and return address |
| SwitchAsm.FrameWords | boot/switch.asm:33-48 | which register each of the seven words pushed holds; no other word changes |
| SwitchAsm.Core.SwitchContext | boot/switch.asm:33-48 | the instructions park the running context below its stack pointer and load the one at the new stack pointer, the flag untouched |
| TaskMachine.SwitchOnCore | src/task.rs:281-292 | the machine's switch step is those instructions |
| TaskMachine.StepIsolates | src/task.rs:252-295 | a step touches no stack, saved stack pointer or pending call of a task off the processor |
| TaskMachine.ReturnTransparent | boot/isr.asm:94-116 | the return from a call or interrupt restores exactly the recorded state |
| TaskMachine.SwitchLoads | src/task.rs:272-292 | a switch loads a parked context of a task that is not finished, never a stale or zero pointer |
| TaskMachine.SwitchParks | boot/switch.asm:33-40 | a switch parks exactly the state that made the call |
| TaskMachine.NewTaskParked | src/task.rs:91-124 | a new task's frame resumes in the trampoline with r15 = entry and a 16-aligned stack pointer |
| TaskSpawn.SpawnStep | src/task.rs:91-124 | the spawn's step appends a task with the entry that the call was given, 16 KiB of stack and the seven fabricated words below its 16-aligned top, queued last, and changes no other task |
| TaskSpawn.EntriesStay | src/task.rs:185-198 | over any run, no task's entry or stack changes |
| TaskSpawn.TrampolineEnters | boot/switch.asm:84-89 | in the trampoline r15 is the task's entry, and the next step goes there, with the return address behind the call |
| TaskSpawn.SpawnedRunsItsEntry | src/task.rs:91-198 | from `spawn(f)` through any run to the new task's trampoline: f is in r15, and the trampoline goes to f |
| TaskSpawn.KernelGoesOn | src/task.rs:252-334 | kernel code always has a next step, and never comes to the halt behind an exit |
| TaskSpawn.ChangesUnderLock | src/task.rs:185-295 | the scheduler's queue, states and table change only under the lock with the flag clear; the processor changes hands only with the lock free and the flag clear |
| TaskSpawn.TickPreempts | src/task.rs:299-307 | after a tick the next five steps can only be the kernel's, and put the head of the queue on the processor |
| TaskSpawn.YieldHandsOver | src/task.rs:252-295 | after a call of `yield_now` with no tick in between, five steps do the same |
| TaskSpawn.ReturnFinishes | src/task.rs:314-334 | a task whose entry function returns is finished five steps on, with the flag clear |
| TaskMachine.StepSched | src/task.rs:185-334 | every step keeps the scheduler invariant; only the running task can finish |
| TaskMachine.StepOthers | src/task.rs:252-295 | every step leaves all live tasks off the processor properly parked |
| TaskMachine.StepCpu | src/task.rs:252-334 | every step leaves the running task with its pending calls and interrupts intact on its stack |
| TaskMachine.StepSys | src/task.rs:185-334 | every step, ticks included, keeps the whole invariant |
| TaskMachine.RunsAreSafe | src/task.rs:185-334 | in every state reachable from boot: the invariant, no tick and no waiting while the scheduler is locked, only parked contexts loaded, new tasks started as fabricated; that they run the function spawned is `TaskSpawn.SpawnedRunsItsEntry` |
| TaskMachine.ParkedStays | src/task.rs:281-295 | however long other tasks run, a parked task's stack and context stay as they were |
| TaskMachine.SwitchTransparent | src/task.rs:281-295 | a task comes back from `switch_context` with registers, stack pointer, return address, flag and stack as it left |
| TaskMachine.CallsAndTicksAreTransparent | src/task.rs:252-307 | over any run, a task returns from a tick, `yield_now` or `spawn` to the instruction it left or the one behind the call, with the six registers, stack pointer, flag and stack as they were |
| TaskFairness.RunProjects | src/task.rs:185-334 | every run of the machine, ticks included, is a run of the scheduler's spawns, yields and exits |
| TaskFairness.QueuedTaskRuns | src/task.rs:252-295 | from any state, the task at queue position k is put on the processor by the step right after the (k+1)-th later pick |
| TaskFairness.FinishedNeverRuns | src/task.rs:314-334 | a finished task that has left the processor is never on it again |
| Ring.FullExactly | src/keyboard.rs:154-159 | `push` finds the ring full iff all slots but one hold unreleased bytes |
| Ring.StepInv | src/keyboard.rs:154-174 | every single load and store, of either side at any point, keeps the ring invariant |
| Ring.ContentsAre | src/keyboard.rs:154-174 | reading the slots from head round to tail gives the accepted bytes not yet released |
| Ring.Fifo | src/keyboard.rs:154-174 | under every interleaving, bytes popped followed by bytes in the ring are the bytes accepted, in order |
| Ring.AcceptedAreCalledWith | src/keyboard.rs:154-162 | under every interleaving, the bytes accepted are those that the calls of `push` that publish were given, in order |
| Ring.DropsAndMisses | src/keyboard.rs:154-171 | under every interleaving, a byte is dropped iff the backlog is capacity - 1 when HEAD is read, and `pop` finds nothing iff it is 0 when TAIL is read |
| Ring.UnreadSlotsStay | src/keyboard.rs:157-162 | no access changes the slot of an unreleased byte |
| Ring.InputRing.Push | src/keyboard.rs:154-162 | the ring in place: the effect of all accesses, at any point of a `pop` |
| Ring.InputRing.Pop | src/keyboard.rs:166-174 | returns the oldest unreleased byte, none iff there is none |
| ShellPaths.Canonicalize | src/shell.rs:230-251 | the two loops; the output is canonical for all arguments |
| ShellPaths.StepByStep | src/shell.rs:230-251 | for any stack of names: a name goes one down, ".." one back up and nowhere from "/", "." and the empty argument stay, an absolute argument starts over |
| ShellPaths.RenderedIs | src/shell.rs:241-250 | a canonical path is its names, each behind a slash; without names, "/" |
| ShellPaths.CanonicalIsFixed | src/shell.rs:225-251 | canonical paths are fixed points, as argument and under an empty argument |
| ShellPaths.CanonicalizedComposes | src/shell.rs:230-251 | normalising a, then relative b, is normalising a/b, for non-empty a |
| ShellPaths.Shell.Cd | src/shell.rs:264-284 | the directory changes iff the argument is empty or names a directory of the mounted image, to "/" or to what the argument names; each failure leaves it and has its own outcome |
| ShellPaths.CdThereAndBack | src/shell.rs:264-284 | after a successful `cd name`, `cd ..` is back where it was; from "/" it stays |
| ShellPaths.CwdStaysCanonical | src/shell.rs:264-284 | in every run of `cd` the working directory is canonical, and with one image always names a directory |
| ShellPaths.CdComposes | src/shell.rs:264-284 | after a successful `cd a`, `cd b` does what `cd a/b` would have done |
| Base64.Symbol | src/shell.rs:525 | the alphabet is inverse to the symbol values |
| Base64.Capitals | src/shell.rs:525 | symbols 0 to 25 are the capital letters in order |
| Base64.SmallLetters | src/shell.rs:525 | symbols 26 to 51 are the small letters |
| Base64.TheRest | src/shell.rs:525 | symbols 52 to 63 are the digits, "+" and "/" |
| Base64.GroupDigits | src/shell.rs:527-535 | the four characters of one, two and three bytes, six bits each, with "=" for what is missing |
| Base64.EncodedGroup | src/shell.rs:524-537 | the length of an encoding, and which bytes each group of four comes from |
| Base64.Decode | src/shell.rs:481-520 | the loops compute the decoding function, error included |
| Base64.Encode | src/shell.rs:524-537 | the loop computes the encoding function |
| Base64.DecodeOutcome | src/shell.rs:481-506 | exactly which inputs are accepted, and which error each other input gets, by its first character outside the alphabet |
| Base64.EncodeThenDecode | src/shell.rs:481-537 | decoding an encoding gives the input back, for all inputs |
| Base64.DecodeThenEncode | src/shell.rs:481-537 | encoding a decoding gives the accepted input back iff its unused pad bits are zero (sections 4 and 3.5 of RFC 4648) |

## Left out

- TaskMachine.RunsAreSafe: caller-saved registers, segment registers and the other bits of RFLAGS are not modelled; the interrupt stub saves and restores them with the modelled ones.
- TaskMachine.CallsAndTicksAreTransparent: says what a return looks like, not that it comes; a task that is never scheduled again returns nowhere. How long a queued task waits is `TaskFairness.QueuedTaskRuns`.
- TaskMachine.NewTaskParked: the zeroing of a new stack is not modelled, only the seven slots written over it; where the stack lies is a parameter, apart from all others as the heap guarantees.
- Stack overflow: the stacks have no guard page, so a call and a tick need room on the stack in the model, as they do in the kernel.
- Heap locking: the heap, frame and paging models are sequential; only the scheduler's lock is part of the state machine.
- Double frees and frees of memory never handed out: contract preconditions of the allocator and the heap, as in the source.
- Memory-map tags shorter than 16 bytes: the entry size is read before the tag size is looked at, so the layout theorem is about tags of at least 16 bytes, and `MemoryMap` takes memory to be readable as far as it reads such a tag.
- AddressSpace.AddressSpace.MapInner: flags inside the address mask or with USER, and physical addresses from 2^52 on, are excluded.
- Lossy UTF-8 decoding of names: names are byte strings, and the writer's theorem is about distinct names of 1 to 20 ASCII bytes without NUL and '/', none of the root files called docs, counts and sizes that fit their fields.
- Worker checksums and boxes: `RunWorkers` follows the log and the states; that registers and stack survive a switch is `TaskMachine`'s subject, heap contents are `Heap`'s.
- `snapshot`, printing, prompts, command parsing, the reported counters of `init` and the self-tests: output, or single expressions.
- The `load` command's read loop and the per-session region it appends: I/O.
- Weaker memory orders of the ring: the kernel runs on one core.
- Port I/O, UART, PIC, PIT, VGA, fw_cfg, CR3 loads, descriptor tables, the ring-3 blobs, the boot assembly, src/net.rs, the CTF server and the web front end are not part of this model.
