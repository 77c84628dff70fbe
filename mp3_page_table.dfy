/**
 * The page table of MP3 (MP3/submissions/page_table.C): a directory whose
 * slot 0 names a table identity-mapping the first 4 MB, and a fault handler
 * that walks the directory through physical addresses (the tables live in
 * the kernel pool, inside the identity-mapped 4 MB) and fills in a missing
 * directory entry from the kernel pool and a missing table entry from the
 * process pool.  The pools are MP2's ContFramePool; the class's static
 * members are the fields of a `PagingState` object passed to every
 * operation.
 */
module MP3Paging {
  import opened Common
  import opened X86
  import opened FrameOps
  import opened MP2FramePool
  import opened PageTables

  /** The static members of PageTable. */
  class PagingState {
    var currentPageTable: PageTable?
    var pagingEnabled: u32
    var kernelMemPool: ContFramePool?
    var processMemPool: ContFramePool?
    var sharedSize: u32

    constructor ()
      ensures currentPageTable == null && pagingEnabled == 0 && sharedSize == 0
      ensures kernelMemPool == null && processMemPool == null
    {
      currentPageTable := null;
      pagingEnabled := 0;
      kernelMemPool := null;
      processMemPool := null;
      sharedSize := 0;
    }

    /**
     * Both pools have been supplied and are well formed; they may be one
     * pool, but two different pools do not share a bitmap.
     */
    ghost predicate Ready()
      reads this
    {
      kernelMemPool != null && processMemPool != null && kernelMemPool.Valid() && processMemPool.Valid() &&
      (kernelMemPool != processMemPool ==> kernelMemPool.bitmap != processMemPool.bitmap)
    }
  }

  /** The frame a fill drew from its pool: none unless it returned Ok(Some(frame)). */
  function Drawn(r: Outcome<Option<u32>>): Option<u32>
  {
    if r.Ok? then r.value else None
  }

  /**
   * get_frames(1)'s effect on a pool, with `frame` what it handed out: the
   * bitmap as Allocate leaves it for a run of one, and one fewer on the
   * counter; with no frame, the pool is as it was.
   */
  twostate predicate Took(pool: ContFramePool, new frame: Option<u32>)
    requires pool.Valid()
    reads pool, pool.bitmap
  {
    old(pool.nFreeFrames) >= Count(frame) && pool.nFreeFrames == old(pool.nFreeFrames) - Count(frame) &&
    TookOne(old(pool.bitmap[..]), frame, pool.bitmap[..], pool.baseFrameNo)
  }

  /**
   * Two get_frames(1) calls in a row on one pool, with first and second what
   * they handed out and mid the bitmap between them: each call's frame and
   * bitmap are Allocate's (TookOne), both frames are frames of the pool,
   * and the counter drops by one per frame; with none, the pool is as it was.
   */
  twostate predicate TookTwice(pool: ContFramePool, new first: Option<u32>, new second: Option<u32>, mid: seq<bv8>)
    requires pool.Valid()
    reads pool, pool.bitmap
  {
    old(pool.nFreeFrames) >= Count(first) + Count(second) &&
    pool.nFreeFrames == old(pool.nFreeFrames) - Count(first) - Count(second) &&
    (first.Some? ==> pool.baseFrameNo <= first.value < pool.baseFrameNo + pool.nframes) &&
    (second.Some? ==> pool.baseFrameNo <= second.value < pool.baseFrameNo + pool.nframes) &&
    TookOne(old(pool.bitmap[..]), first, mid, pool.baseFrameNo) &&
    TookOne(mid, second, pool.bitmap[..], pool.baseFrameNo)
  }

  /**
   * What the fault handler relies on from a pool, with `frame` the frame a
   * fill drew: a frame of the pool and one fewer on the counter; with no
   * frame, the pool is as it was.
   */
  twostate predicate Drew(pool: ContFramePool, new frame: Option<u32>)
    requires pool.Valid()
    reads pool, pool.bitmap
  {
    match frame
    case Some(f) =>
      pool.baseFrameNo <= f < pool.baseFrameNo + pool.nframes &&
      old(pool.nFreeFrames) != 0 && pool.nFreeFrames == old(pool.nFreeFrames) - 1
    case None =>
      pool.nFreeFrames == old(pool.nFreeFrames) && pool.bitmap[..] == old(pool.bitmap[..])
  }

  /**
   * Installs a frame of pool in word w of frame f unless that word holds a
   * present entry (`*entry = get_frames(1) * PAGE_SIZE | 3`): Ok(None) when
   * it was present, Ok(Some(frame)) when it has been filled.
   */
  method FillEntry(m: Machine, pool: ContFramePool, f: int, w: int) returns (r: Outcome<Option<u32>>)
    requires m.Valid() && pool.Valid() && 0 <= f < FRAME_LIMIT && 0 <= w < ENTRIES
    modifies m.memory, pool, pool.bitmap
    ensures old(m.Entry(f, w)) & PRESENT == PRESENT ==>
              r == Ok(None) && m.Entry(f, w) == old(m.Entry(f, w)) && unchanged(pool, pool.bitmap)
    ensures old(m.Entry(f, w)) & PRESENT == 0 && r.Ok? ==> r.value.Some?
    ensures r.Ok? && r.value.Some? ==> r.value.value < FRAME_LIMIT && m.Entry(f, w) == EntryFor(r.value.value)
    ensures r.Fail? ==> m.Entry(f, w) == old(m.Entry(f, w)) && r.failure in {NoFreeFrames, BitmapOverrun}
    ensures Took(pool, Drawn(r)) && Drew(pool, Drawn(r))
    ensures forall g, x :: 0 <= g < FRAME_LIMIT && 0 <= x < ENTRIES && (g != f || x != w) ==>
              m.Entry(g, x) == old(m.Entry(g, x))
  {
    if m.Entry(f, w) & PRESENT == PRESENT {
      return Ok(None);
    }
    var got := TakeFrame(pool);
    if got.Fail? {
      return Fail(got.failure);
    }
    var frame := got.value;
    m.Store(f, w, EntryFor(frame));
    r := Ok(Some(frame));
  }

  /** `get_frames(1)` on a pool: the frame Allocate picks, and one frame fewer on the counter. */
  method TakeFrame(pool: ContFramePool) returns (r: Outcome<u32>)
    requires pool.Valid()
    modifies pool, pool.bitmap
    ensures pool.next == old(pool.next) && pool.prev == old(pool.prev)
    ensures r.Ok? ==> r.value < FRAME_LIMIT
    ensures r.Fail? ==> r.failure in {NoFreeFrames, BitmapOverrun}
    ensures Took(pool, if r.Ok? then Some(r.value) else None)
    ensures Drew(pool, if r.Ok? then Some(r.value) else None)
  {
    r := pool.GetFrames(1);
  }

  /**
   * The constructor's two `get_frames(1)` calls on one pool: the directory
   * frame, then the table frame; a failure stops at once.
   */
  method TakeTables(pool: ContFramePool)
    returns (r: Outcome<()>, dirFrame: Option<u32>, tableFrame: Option<u32>, ghost mid: seq<bv8>)
    requires pool.Valid()
    modifies pool, pool.bitmap
    ensures r.Ok? <==> tableFrame.Some?
    ensures tableFrame.Some? ==> dirFrame.Some?
    ensures r.Ok? ==> dirFrame.value < FRAME_LIMIT && tableFrame.value < FRAME_LIMIT
    ensures r.Fail? ==> r.failure in {NoFreeFrames, BitmapOverrun}
    ensures TookTwice(pool, dirFrame, tableFrame, mid)
  {
    var got := TakeFrame(pool);
    dirFrame, tableFrame, mid := if got.Ok? then Some(got.value) else None, None, pool.bitmap[..];
    if got.Fail? {
      r := Fail(got.failure);
      return;
    }
    got := TakeFrame(pool);
    if got.Fail? {
      r := Fail(got.failure);
      return;
    }
    tableFrame := Some(got.value);
    r := Ok(());
  }

  class PageTable {
    /** `page_directory`: the physical address of the directory frame. */
    const pageDirectory: bv32

    constructor Init(dir: bv32)
      ensures pageDirectory == dir
    {
      pageDirectory := dir;
    }

    /** init_paging (lines 15-23): `shared_size = shared_size` leaves the static as it was. */
    static method InitPaging(sys: PagingState, kernel: ContFramePool?, process: ContFramePool?, sharedSize: u32)
      modifies sys
      ensures sys.kernelMemPool == kernel && sys.processMemPool == process
      ensures sys.sharedSize == old(sys.sharedSize)
      ensures sys.currentPageTable == old(sys.currentPageTable) && sys.pagingEnabled == old(sys.pagingEnabled)
    {
      sys.kernelMemPool := kernel;
      sys.processMemPool := process;
    }

    /**
     * The constructor (lines 25-50): a directory frame and a table frame from
     * the kernel pool, the table identity-mapping frames 0..1023, directory
     * slot 0 naming the table and every other slot `0 | 2`.  A pool failure
     * stops construction; when the second call fails, the first frame stays
     * taken.  dirFrame and tableFrame are the frames the two `get_frames(1)`
     * calls handed out and mid the bitmap between them (TookTwice).  Should
     * the pool hand out one frame twice, the directory writes, which come
     * last, win.
     */
    static method Create(sys: PagingState, m: Machine)
      returns (r: Outcome<PageTable>, ghost dirFrame: Option<u32>, ghost tableFrame: Option<u32>, ghost mid: seq<bv8>)
      requires m.Valid() && sys.kernelMemPool != null && sys.kernelMemPool.Valid()
      modifies m.memory, sys.kernelMemPool, sys.kernelMemPool.bitmap
      ensures r.Ok? <==> tableFrame.Some?
      ensures tableFrame.Some? ==> dirFrame.Some?
      ensures TookTwice(sys.kernelMemPool, dirFrame, tableFrame, mid)
      ensures r.Fail? ==> Unchanged(m)
      ensures r.Ok? ==> sys.kernelMemPool.nFreeFrames == old(sys.kernelMemPool.nFreeFrames) - 2
      ensures r.Ok? ==> dirFrame.value < FRAME_LIMIT && tableFrame.value < FRAME_LIMIT
      ensures r.Ok? ==>
                var d := FrameNo(r.value.pageDirectory);
                var t := FrameNo(m.Entry(d, 0));
                r.value.pageDirectory == FrameAddress(dirFrame.value as bv20) &&
                m.Entry(d, 0) == EntryFor(tableFrame.value) &&
                r.value.pageDirectory & 0xFFF == 0 &&
                m.Entry(d, 0) & 0xFFF == 3 && m.Entry(d, 0) & PRESENT == PRESENT &&
                (forall j :: 1 <= j < ENTRIES ==> m.Entry(d, j) == NOT_PRESENT_ENTRY) &&
                (t != d ==> IdentityTable(m, t)) &&
                (forall g, x :: 0 <= g < FRAME_LIMIT && 0 <= x < ENTRIES && g != d && g != t ==>
                   m.Entry(g, x) == old(m.Entry(g, x)))
    {
      var taken, first, second;
      taken, first, second, mid := TakeTables(sys.kernelMemPool);
      dirFrame, tableFrame := first, second;
      if taken.Fail? {
        r := Fail(taken.failure);
        return;
      }
      var directory := FrameAddress(first.value as bv20);
      var table := FrameAddress(second.value as bv20);
      BuildTables(m, directory, table);
      var pt := new PageTable.Init(directory);
      r := Ok(pt);
    }

    /** load (lines 53-59). */
    method Load(sys: PagingState, m: Machine)
      modifies sys, m
      ensures sys.currentPageTable == this && m.cr3 == pageDirectory
      ensures m.cr0 == old(m.cr0) && m.cr2 == old(m.cr2)
      ensures sys.pagingEnabled == old(sys.pagingEnabled) && sys.sharedSize == old(sys.sharedSize)
      ensures sys.kernelMemPool == old(sys.kernelMemPool) && sys.processMemPool == old(sys.processMemPool)
    {
      sys.currentPageTable := this;
      m.cr3 := pageDirectory;
    }

    /** enable_paging (lines 61-67). */
    static method EnablePaging(sys: PagingState, m: Machine)
      modifies sys, m
      ensures m.cr0 == old(m.cr0) | CR0_PG && m.PagingOn() && sys.pagingEnabled == 1
      ensures m.cr2 == old(m.cr2) && m.cr3 == old(m.cr3)
      ensures sys.currentPageTable == old(sys.currentPageTable) && sys.sharedSize == old(sys.sharedSize)
      ensures sys.kernelMemPool == old(sys.kernelMemPool) && sys.processMemPool == old(sys.processMemPool)
    {
      m.cr0 := m.cr0 | CR0_PG;
      sys.pagingEnabled := 1;
    }

    /**
     * handle_fault (lines 69-102).  Nothing happens unless some error-code
     * bit other than bit 0 is set.  Otherwise the directory entry of CR2 is
     * filled from the kernel pool if it is not present, then the table entry
     * it leads to is filled from the process pool if it is not present.
     * Only those two words can change.  Afterwards both entries are present,
     * and with paging on the faulting address translates.
     */
    static method HandleFault(sys: PagingState, m: Machine, errCode: bv32)
      returns (r: Outcome<()>, ghost dirFrame: Option<u32>, ghost pageFrame: Option<u32>, ghost mid: seq<bv8>)
      requires m.Valid() && sys.Ready()
      modifies m.memory, sys.kernelMemPool, sys.kernelMemPool.bitmap
      modifies sys.processMemPool, sys.processMemPool.bitmap
      ensures errCode & 0xFFFF_FFFE == 0 ==>
                r == Ok(()) && unchanged(m.memory) && dirFrame.None? && pageFrame.None? &&
                unchanged(sys.kernelMemPool, sys.kernelMemPool.bitmap, sys.processMemPool, sys.processMemPool.bitmap)
      ensures r.Fail? ==> r.failure in {NoFreeFrames, BitmapOverrun}
      ensures old(m.DirEntry(m.cr2)) & PRESENT == PRESENT && old(m.TableEntry(m.cr2)) & PRESENT == PRESENT ==>
                r == Ok(()) && Unchanged(m) && dirFrame.None? && pageFrame.None?
      ensures old(m.DirEntry(m.cr2)) & PRESENT == PRESENT ==> m.DirEntry(m.cr2) == old(m.DirEntry(m.cr2)) && dirFrame.None?
      ensures errCode & 0xFFFF_FFFE != 0 && old(m.DirEntry(m.cr2)) & PRESENT == 0 && r.Ok? ==> dirFrame.Some?
      ensures errCode & 0xFFFF_FFFE != 0 && old(m.DirEntry(m.cr2)) & PRESENT == PRESENT &&
              old(m.TableEntry(m.cr2)) & PRESENT == 0 && r.Ok? ==>
                pageFrame.Some?
      ensures dirFrame.Some? ==> dirFrame.value < FRAME_LIMIT && m.DirEntry(m.cr2) == EntryFor(dirFrame.value)
      ensures pageFrame.Some? ==> pageFrame.value < FRAME_LIMIT && m.TableEntry(m.cr2) == EntryFor(pageFrame.value)
      ensures sys.kernelMemPool != sys.processMemPool ==>
                Took(sys.kernelMemPool, dirFrame) && Took(sys.processMemPool, pageFrame) &&
                Drew(sys.kernelMemPool, dirFrame) && Drew(sys.processMemPool, pageFrame)
      ensures sys.kernelMemPool == sys.processMemPool ==> TookTwice(sys.kernelMemPool, dirFrame, pageFrame, mid)
      ensures r.Ok? && errCode & 0xFFFF_FFFE != 0 ==>
                m.DirEntry(m.cr2) & PRESENT == PRESENT && m.TableEntry(m.cr2) & PRESENT == PRESENT &&
                (m.PagingOn() ==> m.Translate(m.cr2).Ok?)
      ensures forall g, x ::
                0 <= g < FRAME_LIMIT && 0 <= x < ENTRIES &&
                (g != FrameNo(m.cr3) || x != DirIndex(m.cr2)) &&
                (g != FrameNo(m.DirEntry(m.cr2)) || x != TableIndex(m.cr2))
                ==> m.Entry(g, x) == old(m.Entry(g, x))
    {
      if errCode & 0xFFFF_FFFE == 0 {
        r, dirFrame, pageFrame, mid := Ok(()), None, None, sys.kernelMemPool.bitmap[..];
      } else {
        r, dirFrame, pageFrame, mid :=
          FillPath(m, sys.kernelMemPool, sys.processMemPool, FrameNo(m.cr3), DirIndex(m.cr2), TableIndex(m.cr2));
      }
    }
  }

  /**
   * The filling part of handle_fault, on the directory frame dir and the two
   * indices: word di of dir is filled from kp unless present, then word ti of
   * the table it names is filled from pp unless present.  dirFrame and
   * pageFrame are the frames drawn from kp and pp, and mid is kp's bitmap
   * between the two fills; kp and pp may be one pool.
   */
  method FillPath(m: Machine, kp: ContFramePool, pp: ContFramePool, dir: int, di: int, ti: int)
    returns (r: Outcome<()>, ghost dirFrame: Option<u32>, ghost pageFrame: Option<u32>, ghost mid: seq<bv8>)
    requires m.Valid() && kp.Valid() && pp.Valid() && (kp != pp ==> kp.bitmap != pp.bitmap)
    requires 0 <= dir < FRAME_LIMIT && 0 <= di < ENTRIES && 0 <= ti < ENTRIES
    modifies m.memory, kp, kp.bitmap, pp, pp.bitmap
    ensures r.Fail? ==> r.failure in {NoFreeFrames, BitmapOverrun} && pageFrame.None?
    ensures old(m.Entry(dir, di)) & PRESENT == PRESENT ==> m.Entry(dir, di) == old(m.Entry(dir, di)) && dirFrame.None?
    ensures old(m.Entry(dir, di)) & PRESENT == PRESENT &&
            old(m.Entry(FrameNo(m.Entry(dir, di)), ti)) & PRESENT == PRESENT ==>
              r == Ok(()) && pageFrame.None? &&
              m.Entry(FrameNo(m.Entry(dir, di)), ti) == old(m.Entry(FrameNo(m.Entry(dir, di)), ti))
    ensures old(m.Entry(dir, di)) & PRESENT == 0 && r.Ok? ==> dirFrame.Some?
    ensures old(m.Entry(dir, di)) & PRESENT == PRESENT &&
            old(m.Entry(FrameNo(m.Entry(dir, di)), ti)) & PRESENT == 0 && r.Ok? ==>
              pageFrame.Some?
    ensures dirFrame.Some? ==> dirFrame.value < FRAME_LIMIT && m.Entry(dir, di) == EntryFor(dirFrame.value)
    ensures pageFrame.Some? ==>
              pageFrame.value < FRAME_LIMIT && m.Entry(FrameNo(m.Entry(dir, di)), ti) == EntryFor(pageFrame.value)
    ensures r.Ok? ==>
              m.Entry(dir, di) & PRESENT == PRESENT && m.Entry(FrameNo(m.Entry(dir, di)), ti) & PRESENT == PRESENT
    ensures kp != pp ==> Took(kp, dirFrame) && Took(pp, pageFrame) && Drew(kp, dirFrame) && Drew(pp, pageFrame)
    ensures kp == pp ==> TookTwice(kp, dirFrame, pageFrame, mid)
    ensures forall g, x ::
              0 <= g < FRAME_LIMIT && 0 <= x < ENTRIES && (g != dir || x != di) &&
              (g != FrameNo(m.Entry(dir, di)) || x != ti)
              ==> m.Entry(g, x) == old(m.Entry(g, x))
  {
    var filled := FillEntry(m, kp, dir, di);
    dirFrame, pageFrame, mid := Drawn(filled), None, kp.bitmap[..];
    if filled.Fail? {
      r := Fail(filled.failure);
    } else {
      var page := FillTableEntry(m, pp, dir, di, ti);
      pageFrame := Drawn(page);
      r := if page.Fail? then Fail(page.failure) else Ok(());
    }
  }

  /**
   * The second half of handle_fault: with the directory entry at word di of
   * frame dir present, fill word ti of the table it names
   * (`page_directory[di] & 0xFFFFF000`) unless that word is present.  The
   * directory entry keeps its value: if the table is the directory and ti is
   * di, the word is the directory entry itself and is present already.
   */
  method FillTableEntry(m: Machine, pool: ContFramePool, dir: int, di: int, ti: int)
    returns (r: Outcome<Option<u32>>)
    requires m.Valid() && pool.Valid() && 0 <= dir < FRAME_LIMIT && 0 <= di < ENTRIES && 0 <= ti < ENTRIES
    requires m.Entry(dir, di) & PRESENT == PRESENT
    modifies m.memory, pool, pool.bitmap
    ensures m.Entry(dir, di) == old(m.Entry(dir, di))
    ensures r.Fail? ==> r.failure in {NoFreeFrames, BitmapOverrun}
    ensures Took(pool, Drawn(r)) && Drew(pool, Drawn(r))
    ensures var t := FrameNo(m.Entry(dir, di));
            (old(m.Entry(t, ti)) & PRESENT == PRESENT ==> r == Ok(None) && m.Entry(t, ti) == old(m.Entry(t, ti))) &&
            (old(m.Entry(t, ti)) & PRESENT == 0 && r.Ok? ==> r.value.Some?) &&
            (r.Ok? ==> m.Entry(t, ti) & PRESENT == PRESENT) &&
            (r.Ok? && r.value.Some? ==> r.value.value < FRAME_LIMIT && m.Entry(t, ti) == EntryFor(r.value.value)) &&
            (forall g, x :: 0 <= g < FRAME_LIMIT && 0 <= x < ENTRIES && (g != t || x != ti) ==>
               m.Entry(g, x) == old(m.Entry(g, x)))
  {
    var pde := m.Entry(dir, di);
    var table := FrameNo(pde & 0xFFFF_F000);
    FrameOfMasked(pde);
    r := FillEntry(m, pool, table, ti);
  }
}
