# Memory management of a teaching x86 kernel, in Dafny

This project models the memory manager of a small 32-bit x86 teaching
kernel, in three parts.

- **ContFramePool** hands out runs of physical 4 KB frames. Each pool keeps
  a bitmap with two bits per frame: `11` FREE, `10` HEAD (first frame of an
  allocated run), `00` ALLOCATED. Two revisions are modelled:
  `MP2FramePool` and `MP4FramePool`. They share one loop text, which lives
  in `FrameOps`, over the field encoding in `FrameBitmap`.
- **PageTable** is a two-level x86 page table.
  - `MP3Paging` is the revision that reaches the directory and the tables
    through physical addresses.
  - `MP4Paging` is the revision that maps the directory onto itself
    through slot 1023. It reaches entries through the virtual addresses
    `0xFFFFF000 + 4*pd` and `0xFFC00000 + 4*(va>>12)`.
- **VMPool** is a virtual-memory pool. It keeps a list of 512
  `(start, size)` regions, and the fault handler asks it whether an address
  is legitimate. Its pure part is `VMRegions`; its class is
  `MP4Paging.VMPool`.

The machine is a `X86.Machine` object. It holds:

- CR0, CR2 and CR3;
- physical memory, as a `2^20 x 1024` array of 32-bit words. A word is read
  through `Entry(frame, word)` and written through `Store`;
- the MMU's translation (`Translate`), which with paging on walks the
  directory at CR3 and the table the directory entry names.

The static members of the C classes become objects passed to the
operations:

- `PagingState` stands for PageTable's statics.
- `PoolList` stands for ContFramePool's `frame_pool_list`.

Every imperative operation is a method proved against a specification
function or predicate. Examples:

- `GetFrames` against `FrameOps.Allocate`, which is built on the scan
  function `Scan`;
- `ReleaseFrames` against `FrameOps.ReleaseAt`;
- `VMPool.Allocate` and `VMPool.Release` against `VMRegions.AllocateIn` and
  `VMRegions.ReleaseIn`;
- `FreePage` against `PageFreed`;
- the fault handler against `Serviced`.

The lemmas then prove what the kernel relies on about those functions.

Integers are unbounded in Dafny, so the C code's 32-bit arithmetic is
written out:

- `Common.Wrap32` for `unsigned` wrap-around;
- `bv32` for page-table words and addresses;
- an explicit overflow stop for release's `int` counter.

Every point where the C code would halt on `assert`, index outside an
array, dereference null or fault inside the fault handler becomes a
`Fail(...)` outcome. The model never invents a meaning for undefined
behaviour.

Where the code and its design description differ, the model follows the
code:

- A self-hosted pool (info frame 0) writes `0x3F` into byte 0. Its frame 0
  therefore becomes ALLOCATED, not HEAD (`FrameOps.InitialStates`).
- The MP4 release check tests only the high bit of the field. A FREE frame
  therefore passes as well as a HEAD frame (`FrameBitmap.HighBitTest`).
  MP2 requires exactly HEAD.
- get_frames' scan resets its run count only on a HEAD field, and only at
  field position `last % 4`. ALLOCATED frames do not break a run
  (`FrameProps.AllocateCrossesAllocated`). A HEAD that is not at that
  position is reused (`FrameProps.AllocateReusesHead`).
- A scan that does not reach n FREE frames still marks a run: the n
  frames ending at the last FREE frame it counted, or ending at frame 0
  (absolute) when it counted none. With some FREE frames, the run can then
  cover frames that were not FREE (`FrameProps.AllocateStopsShort`). With
  none, get_frames(1) hands out frame 0 in a pool based at frame 0
  (`FrameProps.AllocateFallsThrough`). In a pool based anywhere else that
  run lies before the pool, outside the bitmap, and the model reports
  `BitmapOverrun` (`FrameProps.AllocateFallsBeforePool`).
- Writing HEAD over field p sets every later field of that byte to FREE
  (`FrameProps.HeadWriteFreesNeighbours`).
- release_frames adds the freed frames to a local that shadows the counter,
  so `nFreeFrames` never grows back (`FrameProps.ReleaseCount`).
- The pool registry keeps a head and one `next`. A third pool overwrites
  the head's `next` (`ContFramePool.Create`).
- A newly taken table frame is not cleared. Only the entry that led to it
  is written.
- VMPool.release frees the pages at offsets `PAGE_SIZE .. size`, not
  `0 .. size - PAGE_SIZE` (`VMRegions.FreedPagesShifted`).
- Compaction after a release leaves a gap in the address range, so regions
  are not kept contiguous (`VMRegions.ReleaseLeavesGap`). A full list
  leaves its last region duplicated (`VMRegions.ReleaseFullDuplicatesLast`).
- MP3's page table uses the MP2 frame pool.

## Model

| member | source | states |
|---|---|---|
| FrameBitmap.MasksAreShifts | MP4/submissions/cont_frame_pool.C:236-244 | the field mask, HEAD pattern and HEAD fill for position p are `0xC0`, `0x80`, `0xBF` shifted right by 2p |
| FrameBitmap.SetHeadByteFields | MP4/submissions/cont_frame_pool.C:238-244 | writing HEAD at position p makes field p HEAD and every later field of the byte FREE; earlier fields keep their state |
| FrameBitmap.SetAllocatedByteFields | MP4/submissions/cont_frame_pool.C:250-258 | writing ALLOCATED at p changes only field p, to ALLOCATED |
| FrameBitmap.SetFreeByteFields | MP4/submissions/cont_frame_pool.C:354-389 | setting field p's bits changes only field p, to FREE |
| FrameBitmap.HighBitTest | MP4/submissions/cont_frame_pool.C:341-351 | release's head test passes exactly when the field is HEAD or FREE |
| FrameBitmap.WriteHead | MP4/submissions/cont_frame_pool.C:238-244 | the HEAD byte write is PutHead on the frame-state sequence |
| FrameBitmap.WriteAllocated | MP4/submissions/cont_frame_pool.C:250-258 | the ALLOCATED byte write sets exactly one frame state |
| FrameBitmap.WriteFree | MP4/submissions/cont_frame_pool.C:354-389 | the FREE byte write sets exactly one frame state |
| FrameBitmap.AlignedField | MP4/submissions/cont_frame_pool.C:289-301 | with a 4-aligned base, a frame's field position is its own number mod 4 |
| FrameOps.FieldTests | MP4/submissions/cont_frame_pool.C:199-231 | the scan's three byte tests decide FREE, HEAD and ALLOCATED exactly |
| FrameOps.ScanForRun | MP4/submissions/cont_frame_pool.C:199-231 | the nested scan loop ends with the count and last frame that the Scan function gives |
| FrameOps.ScanByte | MP4/submissions/cont_frame_pool.C:201-228 | one byte of the scan loop advances the state exactly as Scan does |
| FrameOps.ScanField | MP4/submissions/cont_frame_pool.C:205-227 | one field of the scan is FieldStep |
| FrameOps.FieldStepMoves | MP4/submissions/cont_frame_pool.C:205-227 | one field of the scan resets the count to 0 or adds one for a FREE frame; a FREE frame becomes the last frame, any other leaves it |
| FrameOps.ScanBounded | MP4/submissions/cont_frame_pool.C:199-231 | once the count reaches n the scan stops where it is; from a count at most n it never exceeds n |
| FrameOps.ScanAllBounded | MP4/submissions/cont_frame_pool.C:199-231 | the whole scan counts at most n; for n = 0 or an empty bitmap it ends at count 0 and frame 0 |
| FrameOps.ScanEndsInPool | MP4/submissions/cont_frame_pool.C:199-231 | the scan's last frame lies below the pool's end |
| FrameOps.ScanFoundInPool | MP4/submissions/cont_frame_pool.C:199-231 | the count never exceeds n; the last frame is 0 or inside the pool; a completed scan ends on a run of n FREE frames inside the pool |
| FrameOps.ScanFindsRun | MP4/submissions/cont_frame_pool.C:199-231 | whenever the pool holds n consecutive FREE frames, the scan reaches count n |
| FrameOps.ScanOne | MP4/submissions/cont_frame_pool.C:199-231 | for one frame the scan returns the lowest FREE frame, or count 0 when none is FREE |
| FrameOps.FirstFree | MP4/submissions/cont_frame_pool.C:199-231 | the first FREE frame at or after t: all frames before it are not FREE |
| FrameOps.Allocate | MP4/submissions/cont_frame_pool.C:178-274 | a successful get_frames returns a frame of the pool and keeps the bitmap's size |
| FrameOps.TakeRun | MP4/submissions/cont_frame_pool.C:199-263 | the scan-and-mark method returns and leaves exactly what Allocate specifies, or changes nothing on failure |
| FrameOps.AllocateFrom | MP4/submissions/cont_frame_pool.C:236-260 | get_frames' first frame is last - n + 1 in 32 bits; inside the pool the result is that frame with the run marked up to last, outside it a bitmap overrun |
| FrameOps.MarkRun | MP4/submissions/cont_frame_pool.C:236-260 | the marking loop writes HEAD at the first frame and ALLOCATED on the rest (MarkedRun) |
| FrameOps.MarkedRun | MP4/submissions/cont_frame_pool.C:236-260 | the marked bitmap keeps its size and the run's first frame is HEAD |
| FrameOps.MarkedRunFrames | MP4/submissions/cont_frame_pool.C:236-260 | frames before the run keep their state, frames after the first up to last become ALLOCATED, and nothing else changes except the FREE fill of the HEAD byte |
| FrameOps.MarkRange | MP4/submissions/cont_frame_pool.C:289-301 | mark_inaccessible's loop writes HEAD into every frame lo..hi and nothing else |
| FrameOps.MarkedRange | MP4/submissions/cont_frame_pool.C:289-301 | the marked bitmap keeps its size |
| FrameOps.MarkedRangeFrames | MP4/submissions/cont_frame_pool.C:289-301 | every frame lo..hi becomes HEAD; no frame outside lo up to the end of hi's byte changes |
| FrameOps.MarkedRangeStep | MP4/submissions/cont_frame_pool.C:289-301 | one HEAD write extends the marked range by one frame |
| FrameOps.RunEnd | MP4/submissions/cont_frame_pool.C:363-389 | the end of the ALLOCATED run after a frame: all frames before it are ALLOCATED, the one at it is not |
| FrameOps.RunEndUnique | MP4/submissions/cont_frame_pool.C:363-389 | any index with RunEnd's two properties is RunEnd |
| FrameOps.ReleaseAt | MP4/submissions/cont_frame_pool.C:341-392 | a successful release leaves the first frame FREE; failures are only a failed head test or a bitmap overrun |
| FrameOps.ReleaseRun | MP4/submissions/cont_frame_pool.C:341-392 | the release method's outcome and new bitmap are ReleaseAt's |
| FrameOps.FreeRun | MP4/submissions/cont_frame_pool.C:354-392 | the freeing loop frees the first frame and the ALLOCATED run after it; it reports the freed count and the overrun past the bitmap |
| FrameOps.FreeIfAllocated | MP4/submissions/cont_frame_pool.C:363-389 | one step of the freeing loop frees the next frame exactly when it is ALLOCATED |
| FrameOps.FreedUpTo | MP4/submissions/cont_frame_pool.C:363-389 | frames q..e-1 become FREE and every other frame keeps its state |
| FrameOps.Released | MP4/submissions/cont_frame_pool.C:354-392 | the first frame becomes FREE, earlier frames keep their state, a later frame changes only if it was ALLOCATED, and with no ALLOCATED frame after it only the first frame changes |
| FrameOps.InitBitmap | MP4/submissions/cont_frame_pool.C:156-167 | after initialisation every frame is FREE, except that frame 0 of a self-hosted pool is ALLOCATED |
| FrameOps.InitialStates | MP4/submissions/cont_frame_pool.C:156-167 | every frame is FREE except frame 0 of a self-hosted pool; no frame is HEAD |
| FrameOps.NeededInfoFrames | MP4/submissions/cont_frame_pool.C:397-400 | the least number of info frames whose 16384 fields cover n frames |
| FrameOps.CountFree | MP4/submissions/cont_frame_pool.C:142-167 | the number of FREE frames is at most the pool size |
| FrameProps.InitialCount | MP4/submissions/cont_frame_pool.C:140-167 | the constructor's counter equals the number of FREE frames it leaves |
| FrameProps.AllocateOne | MP4/submissions/cont_frame_pool.C:178-274 | get_frames(1) takes the lowest FREE frame and makes it HEAD; with none FREE it marks frame 0 of a pool based at 0, and otherwise reaches outside the bitmap |
| FrameProps.AllocateFindsRun | MP4/submissions/cont_frame_pool.C:178-274 | get_frames(n) succeeds whenever n consecutive FREE frames exist; the chosen run fits in the pool and ends on a FREE frame, its first frame becomes HEAD and the next n-1 ALLOCATED |
| FrameProps.MarkedCount | MP4/submissions/cont_frame_pool.C:236-263 | marking a FREE run of length n lowers the FREE count by n |
| FrameProps.AllocateCount | MP4/submissions/cont_frame_pool.C:236-263 | when the chosen run and the rest of its first byte were FREE, the counter decrement by n matches the frames that stopped being FREE |
| FrameProps.AllocatedRun | MP4/submissions/cont_frame_pool.C:236-263 | when the scan counted n, the run starts at last - n + 1, lies inside the pool, and exactly those n frames are marked |
| FrameProps.RunCount | MP4/submissions/cont_frame_pool.C:236-263 | marking a FREE run of n whose byte is FREE after it lowers the FREE count by exactly n |
| FrameProps.FreedCount | MP4/submissions/cont_frame_pool.C:354-392 | freeing a run raises the FREE count by its length, minus one if the first frame was FREE already |
| FrameProps.ReleaseCount | MP4/submissions/cont_frame_pool.C:354-392 | release frees the first frame and its ALLOCATED run, although the pool's counter is left as it was |
| FrameProps.ReleaseUndoesAllocate | MP4/submissions/cont_frame_pool.C:236-260 | releasing a run just marked restores the previous states; the release overruns only when the run ends the bitmap |
| FrameProps.AllocateCrossesAllocated | MP4/submissions/cont_frame_pool.C:205-227 | an ALLOCATED frame does not reset the scan's run count |
| FrameProps.AllocateReusesHead | MP4/submissions/cont_frame_pool.C:212-226 | a HEAD frame not at position `last % 4` is taken into a new run |
| FrameProps.AllocateFallsThrough | MP4/submissions/cont_frame_pool.C:184-260 | with no FREE frame in a pool based at frame 0, get_frames(1) still marks and returns frame 0 |
| FrameProps.AllocateFallsBeforePool | MP4/submissions/cont_frame_pool.C:184-260 | with no FREE frame in a pool based at frame 4, get_frames(1) fails with BitmapOverrun: the stale `last_frame_no == 0` puts the run before the pool |
| FrameProps.AllocateStopsShort | MP4/submissions/cont_frame_pool.C:184-260 | a scan of [FREE, ALLOCATED, ALLOCATED, FREE] for 3 frames counts only 2, yet get_frames hands out frames 1..3: frame 1 becomes HEAD and frames 2..3 ALLOCATED |
| FrameProps.HeadWriteFreesNeighbours | MP4/submissions/cont_frame_pool.C:238-244 | a HEAD write at position 0 turns the byte's ALLOCATED neighbours FREE |
| FrameProps.SelfHostedScenario | MP4/submissions/cont_frame_pool.C:156-263 | a fresh self-hosted pool of 32 frames at 100 gives get_frames(5) frame 101, leaving 26 FREE frames |
| MP4FramePool.PoolList.Owner | MP4/submissions/cont_frame_pool.C:320-333 | release picks the head unless the frame lies past its end, then the head's next; it fails with no list, or past the head with no next |
| MP4FramePool.PoolList.ReleaseResult | MP4/submissions/cont_frame_pool.C:306-395 | release can only fail with no list, no owning pool, a failed head test or a bitmap overrun |
| MP4FramePool.ContFramePool.Init | MP4/submissions/cont_frame_pool.C:140-167 | the new pool's fields, its initial bitmap, and a counter one lower for a self-hosted pool |
| MP4FramePool.ContFramePool.Create | MP4/submissions/cont_frame_pool.C:132-176 | the size asserts and their failures; on success a fresh pool that becomes the head, or overwrites the head's next |
| MP4FramePool.ContFramePool.GetFrames | MP4/submissions/cont_frame_pool.C:178-274 | an empty counter fails; otherwise the result and bitmap are Allocate's, and the counter drops by n in 32-bit arithmetic |
| MP4FramePool.ContFramePool.MarkInaccessible | MP4/submissions/cont_frame_pool.C:276-304 | HEAD into every frame of the range, an empty loop when the wrapped end precedes the start, an overrun outside the pool; the counter is untouched |
| MP4FramePool.ContFramePool.ReleaseFrames | MP4/submissions/cont_frame_pool.C:306-395 | the owning pool's bitmap becomes ReleaseAt's, with the high-bit head test; every other reachable pool's bitmap is unchanged, and with no owner none changes; no counter changes |
| MP4FramePool.ContFramePool.ReleaseHere | MP4/submissions/cont_frame_pool.C:335-392 | release within the chosen pool is ReleaseAt at the frame's offset |
| MP4FramePool.ContFramePool.NeededInfoFrames | MP4/submissions/cont_frame_pool.C:397-400 | the least r with r * 16384 >= n |
| MP2FramePool.PoolList.Owner | MP2/submissions/cont_frame_pool.C:285-297 | as in MP4: the head, else its next, else a failure |
| MP2FramePool.ContFramePool.Init | MP2/submissions/cont_frame_pool.C:141-167 | the new pool's fields, its initial bitmap and its counter |
| MP2FramePool.ContFramePool.Create | MP2/submissions/cont_frame_pool.C:133-178 | the size asserts, with the bound FRAME_SIZE * 4, and the registry update |
| MP2FramePool.ContFramePool.GetFrames | MP2/submissions/cont_frame_pool.C:180-248 | an empty counter fails; otherwise the result and bitmap are Allocate's, and the counter drops by n |
| MP2FramePool.ContFramePool.MarkInaccessible | MP2/submissions/cont_frame_pool.C:250-266 | HEAD into every frame of the range, within the pool |
| MP2FramePool.ContFramePool.ReleaseFrames | MP2/submissions/cont_frame_pool.C:268-347 | the owning pool's bitmap becomes ReleaseAt's, with the exact-HEAD test; every other reachable pool's bitmap is unchanged, and with no owner none changes; no counter changes |
| MP2FramePool.ContFramePool.ReleaseHere | MP2/submissions/cont_frame_pool.C:299-346 | release within the chosen pool is ReleaseAt at the frame's offset |
| MP2FramePool.ContFramePool.NeededInfoFrames | MP2/submissions/cont_frame_pool.C:349-352 | the least r with r * 16384 >= n |
| X86.FrameAddress | MP4/page_table.C:29-31 | `frame * PAGE_SIZE` is a page-aligned address of that frame |
| X86.PdeAddress | MP4/page_table.C:113 | the PDE pointer of an address is `0xFFFFF000 + 4 * (a >> 22)` |
| X86.PteAddress | MP4/page_table.C:123 | the PTE pointer of an address is `0xFFC00000 + 4 * (a >> 12)` |
| X86.PdeAddressFields | MP4/page_table.C:113 | the PDE pointer has directory and table index 1023, and word index equal to a's directory index |
| X86.PteAddressFields | MP4/page_table.C:123 | the PTE pointer has directory index 1023, table index a's directory index, and word index a's table index |
| X86.TaggedEntry | MP4/page_table.C:45-51 | `address \| 3` of an aligned frame address is present, with flags 3, and names the same frame |
| X86.EntryFor | MP4/page_table.C:34-39 | the entry `frame * PAGE_SIZE \| 3` is present |
| X86.FrameOfMasked | MP3/submissions/page_table.C:90-92 | masking an entry with `0xFFFFF000` keeps its frame |
| X86.Machine.Store | MP4/page_table.C:34-51 | one word of memory changes, to the value stored |
| X86.Machine.WriteCr3 | MP4/page_table.C:163 | CR3 takes the value; CR0 and CR2 keep theirs |
| X86.Machine.Translate | MP4/page_table.C:110-131 | with paging off an address is physical; with paging on it translates exactly when both entries are present, to the table entry's frame plus the offset |
| X86.Walk | MP4/page_table.C:110-131 | the two-level walk: the address itself with paging off; with paging on, a translation exactly when both entries are present, keeping the table entry's frame and the address's offset |
| X86.Machine.SelfMapDirectory | MP4/page_table.C:113-121 | under the self-map the PDE pointer translates to the word of the directory holding a's entry |
| X86.Machine.SelfMapTable | MP4/page_table.C:123-130 | under the self-map the PTE pointer fails exactly when a's directory entry is absent, and otherwise reaches a's table entry |
| PageTables.BuildTables | MP3/submissions/page_table.C:25-50 | an identity table, directory slot 0 naming it as present, all other slots `0 \| 2`; no other frame changes |
| PageTables.FillIdentity | MP3/submissions/page_table.C:33-38 | word i of the table maps frame i, for every i |
| PageTables.FillNotPresent | MP3/submissions/page_table.C:44-48 | the remaining directory slots become `0 \| 2` |
| MP3Paging.FillEntry | MP3/submissions/page_table.C:79-98 | a missing entry becomes `frame * PAGE_SIZE \| 3` for the frame get_frames(1) picks: the pool's bitmap becomes the one Allocate leaves and its counter drops by one; a present one is kept and the pool is untouched; nothing else changes |
| MP3Paging.TakeFrame | MP3/submissions/page_table.C:85-95 | get_frames(1): the frame and the new bitmap are Allocate's for a run of one and the counter drops by one; on failure the pool is as it was |
| MP3Paging.PageTable.InitPaging | MP3/submissions/page_table.C:15-23 | the pools are recorded; `shared_size` is left as it was |
| MP3Paging.PageTable.Create | MP3/submissions/page_table.C:25-50 | two get_frames(1) calls on the kernel pool, composed through the bitmap between them (TookTwice): the first frame becomes the directory (`page_directory` is its address) and the second the identity table named by slot 0; the counter drops by two; when the second call fails the first frame stays taken and memory is unchanged |
| MP3Paging.TakeTables | MP3/submissions/page_table.C:27-30 | the two get_frames(1) calls: the frames and the bitmaps are Allocate's, one after the other; success exactly when both return a frame; the failure is the pool's |
| MP3Paging.PageTable.Load | MP3/submissions/page_table.C:53-59 | CR3 holds the directory and this table is current |
| MP3Paging.PageTable.EnablePaging | MP3/submissions/page_table.C:61-67 | CR0's paging bit is set, along with the flag |
| MP3Paging.PageTable.HandleFault | MP3/submissions/page_table.C:69-102 | a code that needs no fill changes neither memory nor either pool; otherwise a present entry is kept, and on success a kernel-pool frame is drawn exactly when the directory entry was absent and a process-pool frame exactly when the table entry was; each drawn frame is written as `frame * PAGE_SIZE \| 3` and is the one get_frames(1) picks, with its pool's bitmap as Allocate leaves it and its counter down by one; when the kernel and process pools are one pool the two draws compose through the bitmap between them (TookTwice); afterwards both entries are present and CR2 translates; only those two words change |
| MP3Paging.FillPath | MP3/submissions/page_table.C:79-98 | the directory word is filled from the kernel pool and then the table word from the process pool, each exactly when absent (on success) and kept when present; a filled word is `frame * PAGE_SIZE \| 3` for the frame Allocate picks, with the bitmap Allocate leaves and the counter down by one; two distinct pools are each charged for their own draw, one pool for both draws in turn (TookTwice); only the two words change |
| MP3Paging.FillTableEntry | MP3/submissions/page_table.C:90-98 | the word the directory entry leads to is kept with the pool untouched when present; when absent a successful fill writes `frame * PAGE_SIZE \| 3` for the frame Allocate picks, the bitmap becomes Allocate's and the counter drops by one; the directory entry keeps its value; nothing else changes |
| VMRegions.InitialRegions | MP4/submissions/vm_pool.C:61-68 | slot 0 holds the pool's own page; slots 1..511 are `(0, 0)` |
| VMRegions.AllocatedSize | MP4/submissions/vm_pool.C:76-79 | the request is rounded up to whole pages (at least one), wrapping to 0 near 2^32 |
| VMRegions.FirstEmpty | MP4/submissions/vm_pool.C:83-92 | the first slot from i on with size 0 |
| VMRegions.AllocateIn | MP4/submissions/vm_pool.C:73-97 | allocate fails exactly when slots 1..511 are all taken; otherwise the first empty slot gets a region starting where the previous one ends |
| VMRegions.FirstStart | MP4/submissions/vm_pool.C:105-113 | the first slot from i on with the given start |
| VMRegions.ReleaseIn | MP4/submissions/vm_pool.C:99-134 | release fails exactly when no slot from 1 on has the start; otherwise the list is compacted from that slot |
| VMRegions.FreedPagesShifted | MP4/submissions/vm_pool.C:117-119 | the pages handed to free_page start one page past the region's start and end at start + size |
| VMRegions.FreedPages | MP4/submissions/vm_pool.C:117-119 | one address per page, each with the region start's page offset |
| VMRegions.PageOffsetKept | MP4/submissions/vm_pool.C:118-119 | adding whole pages in 32-bit arithmetic keeps an address's page offset |
| VMRegions.Compacted | MP4/submissions/vm_pool.C:121-134 | slots before i and slot 511 are kept; each slot from i to 510 takes the next slot's region, and becomes (0, 0) only when the next slot is empty |
| VMRegions.InitialInvariants | MP4/submissions/vm_pool.C:61-68 | a new pool's list is packed, contiguous and ordered |
| VMRegions.PackedPrefix | MP4/submissions/vm_pool.C:83-92 | in a packed list, the occupied slots are exactly those before the first empty one |
| VMRegions.AllocateKeepsPacked | MP4/submissions/vm_pool.C:83-96 | allocate keeps the occupied slots a prefix |
| VMRegions.AllocateKeepsContiguous | MP4/submissions/vm_pool.C:83-96 | allocate keeps each region starting where the previous one ends |
| VMRegions.AllocateKeepsOrdered | MP4/submissions/vm_pool.C:83-96 | allocate keeps regions in address order when the new one does not wrap |
| VMRegions.AllocatedIsLegitimate | MP4/submissions/vm_pool.C:141-171 | addresses of a newly allocated region are legitimate |
| VMRegions.ReleaseKeepsPacked | MP4/submissions/vm_pool.C:121-134 | release's compaction keeps the occupied slots a prefix |
| VMRegions.ReleaseKeepsOrdered | MP4/submissions/vm_pool.C:121-134 | release's compaction keeps regions in address order |
| VMRegions.ConsecutiveOrdered | MP4/submissions/vm_pool.C:121-134 | in an ordered packed list, every earlier region ends before any later one |
| VMRegions.ReleaseFullDuplicatesLast | MP4/submissions/vm_pool.C:121-134 | with slot 511 occupied, compaction leaves the last region in both slots 510 and 511 |
| VMRegions.ReleaseLeavesGap | MP4/submissions/vm_pool.C:121-134 | releasing a middle region of a contiguous list leaves it no longer contiguous |
| VMRegions.ZeroIsLegitimate | MP4/submissions/vm_pool.C:154-160 | any `(0, 0)` slot makes address 0 legitimate |
| VMRegions.Covers | MP4/submissions/vm_pool.C:154 | an address covered by a region is at or above its start |
| VMRegions.CoversClosed | MP4/submissions/vm_pool.C:154 | when the end does not wrap, a region covers exactly the closed range start..start + size |
| VMRegions.Legitimate | MP4/submissions/vm_pool.C:141-160 | the pool's base address is always legitimate |
| MP4Paging.FirstNull | MP4/page_table.C:136-147 | the first empty registry slot from i on |
| MP4Paging.CountRegistered | MP4/page_table.C:86-93 | `pool_count` is at most the number of slots |
| MP4Paging.PackedCount | MP4/page_table.C:86-108 | in a packed registry, the first `pool_count` slots are exactly the occupied ones |
| MP4Paging.NullBlocks | MP4/page_table.C:136-147 | in a packed registry nothing after an empty slot is occupied |
| MP4Paging.RegisterKeepsPacked | MP4/page_table.C:136-147 | registering into the first empty slot keeps the registry packed |
| MP4Paging.Accepted | MP4/page_table.C:86-108 | with no registered pool nothing is accepted; an accepted address is legitimate for some registered pool |
| MP4Paging.TakeFrame | MP4/page_table.C:118-127 | get_frames(1) on the process pool: the frame and the new bitmap are Allocate's for a run of one, the frame lies in the pool and the counter drops by one; on failure (no frame, overrun) the pool is as it was |
| MP4Paging.FillEntry | MP4/page_table.C:113-130 | a missing entry becomes `frame * PAGE_SIZE \| 3` for the frame get_frames(1) picks: the bitmap becomes Allocate's and the counter drops by one; a present one is kept with the pool untouched; present entries are never overwritten; nothing else changes |
| MP4Paging.FillThrough | MP4/page_table.C:113-130 | a pointer that does not translate is a nested fault that changes nothing; otherwise a present word is kept and draws nothing, and an absent one, on success, becomes `frame * PAGE_SIZE \| 3` for the process-pool frame Allocate picks, with Allocate's bitmap and the counter down by one; only that word changes |
| MP4Paging.FillMappedDirectory | MP4/page_table.C:113-121 | under the self-map, CR2's directory entry is kept when present; when absent a successful fill writes `frame * PAGE_SIZE \| 3` for the frame Allocate picks, with Allocate's bitmap and the counter down by one; only that word changes and the self-map survives |
| MP4Paging.FillMappedTable | MP4/page_table.C:123-130 | under the self-map with the directory entry present, CR2's table entry is kept when present; when absent a successful fill writes `frame * PAGE_SIZE \| 3` for the frame Allocate picks, with Allocate's bitmap and the counter down by one; the directory entry and the self-map survive; only that word changes |
| MP4Paging.PageTable.InitPaging | MP4/page_table.C:16-24 | the pools are recorded; `shared_size` is left as it was |
| MP4Paging.PageTable.Create | MP4/page_table.C:26-53 | two get_frames(1) calls on the process pool, composed through the bitmap between them (Charged): the first frame's address is `page_directory`, slot 0 names the second frame's identity table, slots 1..1022 are `0 \| 2` and slot 1023 is `page_directory \| 3` (SelfMappedTables); the counter drops by two; when the second call fails the first frame stays taken and memory is unchanged |
| MP4Paging.TakeTables | MP4/page_table.C:28-31 | the two get_frames(1) calls: the frames and the bitmaps are Allocate's, one after the other; success exactly when both return a frame; the failure is the pool's |
| MP4Paging.PageTable.Load | MP4/page_table.C:56-62 | CR3 holds the directory and this table is current |
| MP4Paging.PageTable.EnablePaging | MP4/page_table.C:64-70 | CR0's paging bit is set, along with the flag |
| MP4Paging.PageTable.HandleFault | MP4/page_table.C:72-134 | the handler refuses exactly the addresses no registered pool accepts, leaving memory unchanged |
| MP4Paging.PageTable.ServiceFault | MP4/page_table.C:110-133 | a code that needs no fill changes nothing; under the self-map (Serviced) present entries are kept, a frame is drawn exactly for each absent entry when the fill succeeds and is written as `frame * PAGE_SIZE \| 3`, only those two words change, the self-map survives and CR2 translates; the frames are the ones two get_frames(1) calls in turn pick, the bitmap is the one they leave and the counter drops by one per frame drawn (Charged) |
| MP4Paging.FillPath | MP4/page_table.C:110-131 | directory entry, then table entry: the Serviced and Charged guarantees |
| MP4Paging.FillMappedPath | MP4/page_table.C:110-131 | under the self-map, the Serviced guarantees with the frames drawn exactly for the absent entries, and Charged |
| MP4Paging.FillThroughPath | MP4/page_table.C:110-131 | without the self-map, the failure kinds, present entries never overwritten, and Charged |
| MP4Paging.Serviced | MP4/page_table.C:110-131 | a servicing that found both entries present leaves the translation of the address as it was |
| MP4Paging.PageTable.RegisterPool | MP4/page_table.C:136-147 | the pool goes into the first empty slot; a full registry is the overrun at slot 512 |
| MP4Paging.PageTable.FreePage | MP4/page_table.C:149-165 | a present PTE's frame goes back to its pool: the owning pool's bitmap becomes ReleaseAt's, no other bitmap changes, and the PTE becomes `0 \| 2`; an absent PTE changes no bitmap; nothing else in memory changes; CR3 is reloaded with `page_directory` unless the release halts or the PTE pointer faults |
| MP4Paging.ClearPte | MP4/page_table.C:151-163 | the PTE pointer either faults, changing nothing, or the word it reaches is Cleared and its frame released from the owning pool alone (PageFreed); CR3 takes the given directory exactly on success |
| MP4Paging.PteCleared | MP4/page_table.C:153-161 | a successful free_page went through a translating PTE pointer and left the word it reached not present |
| MP4Paging.Cleared | MP4/page_table.C:154-161 | a returning release leaves the word not present; a halting one leaves it as it was |
| MP4Paging.ClearEntry | MP4/page_table.C:154-163 | an absent entry is left alone and no bitmap changes; a present one is released from its owning pool, other pools kept, and cleared unless the release fails; CR3 is reloaded exactly when the release does not fail |
| MP4Paging.ReleaseEntry | MP4/page_table.C:157-163 | the outcome is release_frames'; the owning pool's bitmap becomes ReleaseAt's and the others are kept; the word becomes `0 \| 2` and CR3 is reloaded only when the release returns; nothing else changes |
| MP4Paging.ClearWord | MP4/page_table.C:160 | the word becomes `0 \| 2`, nothing else changes |
| MP4Paging.BuildSelfMapped | MP4/page_table.C:32-51 | SelfMappedTables: the identity table, directory slot 0 naming it, not-present slots 1..1022 and slot 1023 equal to `directory \| 3`; no other frame changes |
| MP4Paging.SelfMappedEntries | MP4/page_table.C:45-51 | in a directory laid out by the constructor, slot 0 is a present entry with flags 3 naming the table, and slot 1023 names the directory itself |
| MP4Paging.PoolCount | MP4/page_table.C:86-93 | the loop counts the occupied registry slots |
| MP4Paging.AnyPoolAccepts | MP4/page_table.C:95-108 | the loop answers whether one of the first `pool_count` pools finds the address legitimate |
| MP4Paging.VMPool.Init | MP4/submissions/vm_pool.C:48-58 | the new pool's fields and its own region array |
| MP4Paging.VMPool.Create | MP4/submissions/vm_pool.C:48-71 | the pool registers in the first empty slot, then its list is InitialRegions; a full registry fails; the registry stays packed |
| MP4Paging.VMPool.InitRegions | MP4/submissions/vm_pool.C:61-68 | the list becomes InitialRegions |
| MP4Paging.VMPool.Allocate | MP4/submissions/vm_pool.C:73-97 | the result and new list are AllocateIn's |
| MP4Paging.VMPool.Release | MP4/submissions/vm_pool.C:99-139 | the new list is ReleaseIn's; the pages handed to free_page are FreedPages of the region; an unknown start fails without touching memory |
| MP4Paging.VMPool.FreePages | MP4/submissions/vm_pool.C:117-119 | free_page is called on start + PAGE_SIZE, start + 2*PAGE_SIZE, ..., one page per page of the region |
| MP4Paging.VMPool.Compact | MP4/submissions/vm_pool.C:121-134 | the compaction loop leaves the list Compacted from slot i |
| MP4Paging.VMPool.IsLegitimate | MP4/submissions/vm_pool.C:141-171 | the loop's answer is Legitimate: the base address, or inside the closed range of some slot |

## Left out

- Console output (`Console::puts` and friends) is not modelled. Neither is
  the TLB: the CR3 reload in free_page is modelled only as the register
  write.
- MP3's own `cont_frame_pool.C` is not part of this model. The MP3 page
  table is modelled over the MP2 pool.
- The bitmap's placement in physical memory is not modelled. Each pool's
  bitmap is an array of its own, so the model does not capture a page-table
  write landing on a bitmap, or the reverse.
- A VMPool's region list is an array of its own, not memory at the pool's
  base address. Release's `Apart` precondition states that it is not a
  frame-pool bitmap.
- A fault raised inside the fault handler or inside free_page (a virtual
  pointer that does not translate) is reported as `NestedFault`. The model
  does not recurse into the handler.
- Two distinct frame pools sharing one bitmap array are not modelled.
  `MP3Paging.PageTable.Ready` allows the kernel and process pools to be
  the same pool, but two different pools must have different bitmaps.
- A new pool's `next` is uninitialised in the C code. The model sets it to
  null.
- MP4Paging.PageTable.HandleFault: its contract states the legitimacy check
  and the failure cases. The memory effect of the fill is stated on
  `ServiceFault`, which it calls.
- MP4Paging.PageTable.FreePage: the self-map case, where a non-translating
  PTE pointer means an absent directory entry, follows from `PteCleared`
  together with `X86.Machine.SelfMapTable`. It is not repeated in this
  contract.
- MP4Paging.VMPool.Release: states the list of pages handed to free_page
  that returned, not the combined effect of those calls on memory and on
  the frame pools.
- MP4Paging.VMPool.FreePages: release's `int` counter overflowing past
  2^31 - 1 is undefined in C. The model stops there with `CounterOverflow`
  and states nothing further.
- MP4Paging.FillThroughPath: without the self-map, only the failure kinds,
  the preservation of present entries and the pool charge are stated.
  Which words are reached then depends on whatever CR3's slot 1023 holds.
- MP3Paging.PageTable.Create: the C constructor writes the new directory
  and table through plain pointers (MP3/submissions/page_table.C:28-48).
  The model writes the physical frames (`PageTables.BuildTables`), which
  is what happens while paging is off, as when the kernel builds its page
  table. The contract does not require paging to be off, so it does not
  capture a constructor run with paging on, whose pointers would be
  virtual.
- MP4Paging.PageTable.Create: the same holds for MP4/page_table.C:29-51
  (`MP4Paging.BuildSelfMapped`). With paging on, the process-pool frames
  it draws lie outside the identity-mapped first 4 MB, so the C
  constructor would fault on its first write. The model instead returns
  the new table, built in physical memory.
- MP3Paging.PageTable.HandleFault: the C handler reaches the directory
  through CR3, and the table through the directory entry's frame address,
  as plain pointers. With paging on, those pointers reach the right
  physical words only while both frames lie in the identity-mapped first
  4 MB. The model writes the physical words directly, so it does not
  capture the handler reaching a different word when a table frame lies
  above 4 MB.
