/**
 * The page table of MP4 (MP4/page_table.C) and the virtual-memory pools it
 * consults (MP4/submissions/vm_pool.C).
 *
 * The constructor builds the identity-mapped first 4 MB as in MP3 and makes
 * directory slot 1023 point back at the directory, so that once paging is on
 * the directory and every table are reachable at fixed virtual addresses
 * (X86.PdeAddress, X86.PteAddress).  The fault handler refuses addresses no
 * registered VMPool accepts, then fills the missing directory and table
 * entries through those addresses, both from the process pool.  free_page
 * returns a page's frame to its frame pool and marks the entry not present.
 *
 * The static members of PageTable are the fields of a `PagingState`
 * object, `vm_pool_list` among them; ContFramePool's static pool registry is
 * the `PoolList` it holds.  A VMPool's region list is an array of its own
 * (in the C code it lives at the pool's base address, in virtual memory).
 */
module MP4Paging {
  import opened Common
  import opened X86
  import opened FrameOps
  import opened PageTables
  import opened VMRegions
  import opened MP4FramePool

  /** The size of `vm_pool_list`. */
  const POOL_SLOTS: int := 512

  /** The largest value of a C `int`, the type of release's page counter. */
  const INT_MAX: int := 0x7FFF_FFFF

  /* ------------------------------------------------ the VMPool registry */

  /** The first empty slot of the registry at or after i, or |s|. */
  function FirstNull(s: seq<VMPool?>, i: nat): (r: nat)
    requires i <= |s|
    ensures i <= r <= |s|
    ensures r < |s| ==> s[r] == null
    ensures forall j :: i <= j < r ==> s[j] != null
    decreases |s| - i
  {
    if i == |s| then i
    else if s[i] == null then i
    else FirstNull(s, i + 1)
  }

  /** handle_fault's `pool_count`: the number of occupied slots. */
  function CountRegistered(s: seq<VMPool?>): (n: nat)
    ensures n <= |s|
  {
    if s == [] then 0
    else CountRegistered(s[..|s| - 1]) + (if s[|s| - 1] != null then 1 else 0)
  }

  /** The occupied slots form a prefix: register_pool always fills the first empty slot. */
  ghost predicate RegistryPacked(s: seq<VMPool?>)
  {
    forall j :: 1 <= j < |s| && s[j] != null ==> s[j - 1] != null
  }

  /** In a packed registry the first `pool_count` slots are exactly the occupied ones. */
  lemma {:induction false} PackedCount(s: seq<VMPool?>)
    requires RegistryPacked(s)
    ensures CountRegistered(s) == FirstNull(s, 0)
    ensures forall j :: 0 <= j < |s| ==> (s[j] != null <==> j < CountRegistered(s))
  {
    if s != [] {
      var t := s[..|s| - 1];
      assert RegistryPacked(t);
      PackedCount(t);
      assert forall j :: 0 <= j < |t| ==> t[j] == s[j];
    }
  }

  /** In a packed registry nothing after an empty slot is occupied. */
  lemma {:induction false} NullBlocks(s: seq<VMPool?>, i: nat, k: nat)
    requires RegistryPacked(s) && i <= k < |s| && s[i] == null
    ensures s[k] == null
    decreases k - i
  {
    if i < k {
      NullBlocks(s, i, k - 1);
    }
  }

  /** Registering into the first empty slot keeps the registry packed. */
  lemma RegisterKeepsPacked(s: seq<VMPool?>, p: VMPool)
    requires RegistryPacked(s) && FirstNull(s, 0) < |s|
    ensures RegistryPacked(s[FirstNull(s, 0) := p])
  {
    var i := FirstNull(s, 0);
    var s' := s[i := p];
    forall j | 1 <= j < |s'| && s'[j] != null
      ensures s'[j - 1] != null
    {
      if j > i {
        NullBlocks(s, i, j);
      }
    }
  }

  /** The pool in registry slot j accepts address a. */
  ghost predicate Accepts(p: VMPool, a: u32)
    reads p.regionList
  {
    Legitimate(p.baseAddress, p.regionList[..], a)
  }

  /** Some pool among the first `pool_count` slots of the registry accepts a. */
  ghost predicate Accepted(list: array<VMPool?>, a: u32): (b: bool)
    reads list, set j | 0 <= j < list.Length && list[j] != null :: list[j].regionList
    ensures CountRegistered(list[..]) == 0 ==> !b
    ensures b ==> exists j :: 0 <= j < list.Length && list[j] != null && Accepts(list[j], a)
  {
    exists j :: 0 <= j < CountRegistered(list[..]) && list[j] != null && Accepts(list[j], a)
  }

  /* ------------------------------------------------------ static state */

  /** The static members of PageTable, and ContFramePool's pool registry. */
  class PagingState {
    var currentPageTable: PageTable?
    var pagingEnabled: u32
    var kernelMemPool: ContFramePool?
    var processMemPool: ContFramePool?
    var sharedSize: u32
    /** `vm_pool_list`. */
    const vmPoolList: array<VMPool?>
    /** ContFramePool's `frame_pool_list`, which release_frames searches. */
    const framePools: PoolList

    constructor (framePools: PoolList)
      ensures this.framePools == framePools && fresh(vmPoolList) && vmPoolList.Length == POOL_SLOTS
      ensures forall j :: 0 <= j < POOL_SLOTS ==> vmPoolList[j] == null
      ensures currentPageTable == null && pagingEnabled == 0 && sharedSize == 0
      ensures kernelMemPool == null && processMemPool == null
    {
      this.framePools := framePools;
      vmPoolList := new VMPool?[POOL_SLOTS](_ => null);
      currentPageTable := null;
      pagingEnabled := 0;
      kernelMemPool := null;
      processMemPool := null;
      sharedSize := 0;
    }

    /** The registry is full size, packed, and every registered pool is well formed. */
    ghost predicate Registry()
      reads this, vmPoolList
    {
      vmPoolList.Length == POOL_SLOTS && RegistryPacked(vmPoolList[..]) &&
      forall j :: 0 <= j < POOL_SLOTS && vmPoolList[j] != null ==> vmPoolList[j].Valid()
    }

    /** What the fault handler relies on: a process pool and a well-formed registry. */
    ghost predicate Ready()
      reads this, vmPoolList
    {
      processMemPool != null && processMemPool.Valid() && Registry()
    }
  }

  /* --------------------------------------------------- entry installation */

  /** The frame a fill drew from the pool: none unless it returned Ok(Some(frame)). */
  function Drawn(r: Outcome<Option<u32>>): Option<u32>
  {
    if r.Ok? then r.value else None
  }

  /**
   * get_frames(1)'s effect on a pool, with `frame` what it handed out: the
   * bitmap as Allocate leaves it for a run of one, which marks that frame
   * HEAD, and one fewer on the counter; with no frame, the pool is as it was.
   */
  twostate predicate Took(pool: ContFramePool, new frame: Option<u32>)
    requires pool.Valid()
    reads pool, pool.bitmap
  {
    old(pool.nFreeFrames) >= Count(frame) && pool.nFreeFrames == old(pool.nFreeFrames) - Count(frame) &&
    TookOne(old(pool.bitmap[..]), frame, pool.bitmap[..], pool.baseFrameNo)
  }

  /**
   * What a fill's caller relies on from the pool, with `frame` the frame
   * drawn: a frame of the pool and one fewer on the counter; with no frame,
   * the pool is as it was.
   */
  twostate predicate Drew(pool: ContFramePool, new frame: Option<u32>)
    requires pool.Valid()
    reads pool, pool.bitmap
  {
    match frame
    case Some(f) =>
      pool.baseFrameNo <= f < pool.baseFrameNo + pool.nframes &&
      old(pool.nFreeFrames) != 0 && pool.nFreeFrames == old(pool.nFreeFrames) - 1
    case None =>
      pool.nFreeFrames == old(pool.nFreeFrames) && pool.bitmap[..] == old(pool.bitmap[..])
  }

  /** `process_mem_pool->get_frames(1)`. */
  method TakeFrame(pool: ContFramePool) returns (r: Outcome<u32>)
    requires pool.Valid()
    modifies pool, pool.bitmap
    ensures pool.next == old(pool.next) && pool.prev == old(pool.prev)
    ensures r.Ok? ==> r.value < FRAME_LIMIT
    ensures r.Fail? ==> r.failure in {NoFreeFrames, BitmapOverrun}
    ensures Took(pool, if r.Ok? then Some(r.value) else None)
    ensures Drew(pool, if r.Ok? then Some(r.value) else None)
  {
    r := pool.GetFrames(1);
  }

  /**
   * `if ((*entry & 0x1) == 0) *entry = get_frames(1) * PAGE_SIZE | 3` on
   * word w of frame f: Ok(None) when the entry was present, Ok(Some(frame))
   * when it has been filled with that frame.
   */
  method FillEntry(m: Machine, pool: ContFramePool, f: int, w: int) returns (r: Outcome<Option<u32>>)
    requires m.Valid() && pool.Valid() && 0 <= f < FRAME_LIMIT && 0 <= w < ENTRIES
    modifies m.memory, pool, pool.bitmap
    ensures old(m.Entry(f, w)) & PRESENT == PRESENT ==>
              r == Ok(None) && m.Entry(f, w) == old(m.Entry(f, w)) && unchanged(pool, pool.bitmap)
    ensures old(m.Entry(f, w)) & PRESENT == 0 && r.Ok? ==> r.value.Some?
    ensures r.Ok? && r.value.Some? ==> r.value.value < FRAME_LIMIT && m.Entry(f, w) == EntryFor(r.value.value)
    ensures r.Fail? ==> m.Entry(f, w) == old(m.Entry(f, w)) && r.failure in {NoFreeFrames, BitmapOverrun}
    ensures Took(pool, Drawn(r)) && Drew(pool, Drawn(r))
    ensures PresentKept(m)
    ensures forall g, x :: 0 <= g < FRAME_LIMIT && 0 <= x < ENTRIES && (g != f || x != w) ==>
              m.Entry(g, x) == old(m.Entry(g, x))
  {
    if m.Entry(f, w) & PRESENT == PRESENT {
      return Ok(None);
    }
    var got := TakeFrame(pool);
    if got.Fail? {
      return Fail(got.failure);
    }
    var frame := got.value;
    m.Store(f, w, EntryFor(frame));
    r := Ok(Some(frame));
  }

  /**
   * `if ((*p & 0x1) == 0) *p = get_frames(1) * PAGE_SIZE | 3` through the
   * virtual pointer p: the MMU translates p, or the access faults inside the
   * handler.
   */
  method FillThrough(m: Machine, pool: ContFramePool, p: bv32) returns (r: Outcome<Option<u32>>)
    requires m.Valid() && pool.Valid()
    modifies m.memory, pool, pool.bitmap
    ensures r.Fail? ==> r.failure in {NestedFault, NoFreeFrames, BitmapOverrun}
    ensures old(m.Translate(p)).Fail? ==> r == Fail(NestedFault) && Unchanged(m)
    ensures Took(pool, Drawn(r)) && Drew(pool, Drawn(r))
    ensures PresentKept(m)
    ensures old(m.Translate(p)).Ok? ==>
              var pa := old(m.Translate(p)).value;
              (old(m.Word(pa)) & PRESENT == PRESENT ==> r == Ok(None) && Unchanged(m)) &&
              (old(m.Word(pa)) & PRESENT == 0 && r.Ok? ==> r.value.Some?) &&
              (r.Ok? ==> m.Word(pa) & PRESENT == PRESENT) &&
              (r.Ok? && r.value.Some? ==> r.value.value < FRAME_LIMIT && m.Word(pa) == EntryFor(r.value.value)) &&
              (r.Fail? ==> Unchanged(m)) &&
              (forall g, x :: 0 <= g < FRAME_LIMIT && 0 <= x < ENTRIES && (g != FrameNo(pa) || x != WordNo(pa)) ==>
                 m.Entry(g, x) == old(m.Entry(g, x)))
  {
    var t := m.Translate(p);
    if t.Fail? {
      return Fail(NestedFault);
    }
    r := FillEntry(m, pool, FrameNo(t.value), WordNo(t.value));
  }

  /**
   * The directory step of the fault handler once the self-map is known to
   * be in place: by X86.Machine.SelfMapDirectory the PDE pointer reaches word
   * `DirIndex(va)` of the directory frame, which is the word filled here.
   */
  method FillMappedDirectory(m: Machine, pool: ContFramePool, va: bv32) returns (r: Outcome<Option<u32>>)
    requires m.Valid() && pool.Valid() && m.SelfMapped()
    modifies m.memory, pool, pool.bitmap
    ensures r.Fail? ==> r.failure in {NoFreeFrames, BitmapOverrun}
    ensures Took(pool, Drawn(r)) && Drew(pool, Drawn(r))
    ensures m.SelfMapped()
    ensures old(m.DirEntry(va)) & PRESENT == PRESENT ==> r == Ok(None) && m.DirEntry(va) == old(m.DirEntry(va))
    ensures old(m.DirEntry(va)) & PRESENT == 0 && r.Ok? ==> r.value.Some?
    ensures r.Ok? ==> m.DirEntry(va) & PRESENT == PRESENT
    ensures r.Ok? && r.value.Some? ==> r.value.value < FRAME_LIMIT && m.DirEntry(va) == EntryFor(r.value.value)
    ensures forall g, x :: 0 <= g < FRAME_LIMIT && 0 <= x < ENTRIES && (g != FrameNo(m.cr3) || x != DirIndex(va)) ==>
              m.Entry(g, x) == old(m.Entry(g, x))
  {
    r := FillEntry(m, pool, FrameNo(m.cr3), DirIndex(va));
  }

  /**
   * The table step of the fault handler once the self-map and va's
   * directory entry are known to be in place: by X86.Machine.SelfMapTable
   * the PTE pointer then reaches word `TableIndex(va)` of the table frame
   * the directory entry names, which is the word filled here.
   */
  method FillMappedTable(m: Machine, pool: ContFramePool, va: bv32) returns (r: Outcome<Option<u32>>)
    requires m.Valid() && pool.Valid() && m.SelfMapped() && m.DirEntry(va) & PRESENT == PRESENT
    modifies m.memory, pool, pool.bitmap
    ensures r.Fail? ==> r.failure in {NoFreeFrames, BitmapOverrun}
    ensures Took(pool, Drawn(r)) && Drew(pool, Drawn(r))
    ensures m.SelfMapped() && m.DirEntry(va) == old(m.DirEntry(va))
    ensures old(m.TableEntry(va)) & PRESENT == PRESENT ==> r == Ok(None) && m.TableEntry(va) == old(m.TableEntry(va))
    ensures old(m.TableEntry(va)) & PRESENT == 0 && r.Ok? ==> r.value.Some?
    ensures r.Ok? ==> m.TableEntry(va) & PRESENT == PRESENT
    ensures r.Ok? && r.value.Some? ==> r.value.value < FRAME_LIMIT && m.TableEntry(va) == EntryFor(r.value.value)
    ensures forall g, x ::
              0 <= g < FRAME_LIMIT && 0 <= x < ENTRIES && (g != FrameNo(m.DirEntry(va)) || x != TableIndex(va))
              ==> m.Entry(g, x) == old(m.Entry(g, x))
  {
    ghost var d := FrameNo(m.cr3);
    ghost var self, de := m.Entry(d, 1023), m.Entry(d, DirIndex(va));
    var f, w := FrameNo(m.DirEntry(va)), TableIndex(va);
    ghost var te := m.Entry(f, w);
    assert de == m.DirEntry(va) && te == m.TableEntry(va);
    r := FillEntry(m, pool, f, w);
    assert m.Entry(d, 1023) == self && m.Entry(d, DirIndex(va)) == de;
    assert m.DirEntry(va) == de && m.TableEntry(va) == m.Entry(f, w);
  }

  /* -------------------------------------------------------- PageTable */

  /**
   * The constructor's two `get_frames(1)` calls on one pool: the directory
   * frame, then the table frame; a failure stops at once.
   */
  method TakeTables(pool: ContFramePool)
    returns (r: Outcome<()>, dirFrame: Option<u32>, tableFrame: Option<u32>, ghost mid: seq<bv8>)
    requires pool.Valid()
    modifies pool, pool.bitmap
    ensures r.Ok? <==> tableFrame.Some?
    ensures tableFrame.Some? ==> dirFrame.Some?
    ensures r.Ok? ==> dirFrame.value < FRAME_LIMIT && tableFrame.value < FRAME_LIMIT
    ensures r.Fail? ==> r.failure in {NoFreeFrames, BitmapOverrun}
    ensures Charged(pool, dirFrame, tableFrame, mid)
  {
    var got := TakeFrame(pool);
    dirFrame, tableFrame, mid := if got.Ok? then Some(got.value) else None, None, pool.bitmap[..];
    if got.Fail? {
      r := Fail(got.failure);
      return;
    }
    got := TakeFrame(pool);
    if got.Fail? {
      r := Fail(got.failure);
      return;
    }
    tableFrame := Some(got.value);
    r := Ok(());
  }

  class PageTable {
    /** `page_directory`: the physical address of the directory frame. */
    const pageDirectory: bv32

    constructor Init(dir: bv32)
      ensures pageDirectory == dir
    {
      pageDirectory := dir;
    }

    /** init_paging (lines 16-24): `shared_size = shared_size` leaves the static as it was. */
    static method InitPaging(sys: PagingState, kernel: ContFramePool?, process: ContFramePool?, sharedSize: u32)
      modifies sys
      ensures sys.kernelMemPool == kernel && sys.processMemPool == process
      ensures sys.sharedSize == old(sys.sharedSize)
      ensures sys.currentPageTable == old(sys.currentPageTable) && sys.pagingEnabled == old(sys.pagingEnabled)
    {
      sys.kernelMemPool := kernel;
      sys.processMemPool := process;
    }

    /**
     * The constructor (lines 26-53): directory and table frames from the
     * process pool, the identity table, directory slot 0 naming the table,
     * slots 1..1022 `0 | 2`, and slot 1023 naming the directory itself
     * (SelfMappedTables).  dirFrame and tableFrame are the frames the two
     * `get_frames(1)` calls handed out and mid the bitmap between them
     * (Charged); when the second call fails, the first frame stays taken.
     */
    static method Create(sys: PagingState, m: Machine)
      returns (r: Outcome<PageTable>, ghost dirFrame: Option<u32>, ghost tableFrame: Option<u32>, ghost mid: seq<bv8>)
      requires m.Valid() && sys.processMemPool != null && sys.processMemPool.Valid()
      modifies m.memory, sys.processMemPool, sys.processMemPool.bitmap
      ensures r.Ok? <==> tableFrame.Some?
      ensures tableFrame.Some? ==> dirFrame.Some?
      ensures Charged(sys.processMemPool, dirFrame, tableFrame, mid)
      ensures r.Fail? ==> Unchanged(m)
      ensures r.Ok? ==> sys.processMemPool.nFreeFrames == old(sys.processMemPool.nFreeFrames) - 2
      ensures r.Ok? ==> dirFrame.value < FRAME_LIMIT && tableFrame.value < FRAME_LIMIT
      ensures r.Ok? ==>
                var directory, table := FrameAddress(dirFrame.value as bv20), FrameAddress(tableFrame.value as bv20);
                r.value.pageDirectory == directory && SelfMappedTables(m, directory, table) &&
                (forall g, x ::
                   0 <= g < FRAME_LIMIT && 0 <= x < ENTRIES && g != FrameNo(directory) && g != FrameNo(table) ==>
                   m.Entry(g, x) == old(m.Entry(g, x)))
    {
      var taken, first, second;
      taken, first, second, mid := TakeTables(sys.processMemPool);
      dirFrame, tableFrame := first, second;
      if taken.Fail? {
        r := Fail(taken.failure);
        return;
      }
      var directory := FrameAddress(first.value as bv20);
      var table := FrameAddress(second.value as bv20);
      var pt := new PageTable.Init(directory);
      BuildSelfMapped(m, directory, table);
      r := Ok(pt);
    }

    /** load (lines 56-62). */
    method Load(sys: PagingState, m: Machine)
      modifies sys, m
      ensures sys.currentPageTable == this && m.cr3 == pageDirectory
      ensures m.cr0 == old(m.cr0) && m.cr2 == old(m.cr2)
      ensures sys.pagingEnabled == old(sys.pagingEnabled) && sys.sharedSize == old(sys.sharedSize)
      ensures sys.kernelMemPool == old(sys.kernelMemPool) && sys.processMemPool == old(sys.processMemPool)
    {
      sys.currentPageTable := this;
      m.cr3 := pageDirectory;
    }

    /** enable_paging (lines 64-70). */
    static method EnablePaging(sys: PagingState, m: Machine)
      modifies sys, m
      ensures m.cr0 == old(m.cr0) | CR0_PG && m.PagingOn() && sys.pagingEnabled == 1
      ensures m.cr2 == old(m.cr2) && m.cr3 == old(m.cr3)
      ensures sys.currentPageTable == old(sys.currentPageTable) && sys.sharedSize == old(sys.sharedSize)
      ensures sys.kernelMemPool == old(sys.kernelMemPool) && sys.processMemPool == old(sys.processMemPool)
    {
      m.cr0 := m.cr0 | CR0_PG;
      sys.pagingEnabled := 1;
    }

    /**
     * handle_fault (lines 72-134).  An address no registered pool accepts
     * halts the kernel; otherwise the handler goes on as ServiceFault, whose
     * contract says what the fill does to memory.
     */
    static method HandleFault(sys: PagingState, m: Machine, errCode: bv32)
      returns (r: Outcome<()>, ghost dirFrame: Option<u32>, ghost pageFrame: Option<u32>, ghost mid: seq<bv8>)
      requires m.Valid() && sys.Ready()
      modifies m.memory, sys.processMemPool, sys.processMemPool.bitmap
      ensures r == Fail(IllegitimateAddress) <==> !old(Accepted(sys.vmPoolList, m.cr2 as int))
      ensures r == Fail(IllegitimateAddress) ==>
                Unchanged(m) && unchanged(sys.processMemPool, sys.processMemPool.bitmap) &&
                dirFrame.None? && pageFrame.None?
      ensures r != Fail(IllegitimateAddress) && errCode & 0xFFFF_FFFE == 0 ==> r == Ok(())
      ensures r.Fail? ==> r.failure in {IllegitimateAddress, NestedFault, NoFreeFrames, BitmapOverrun}
      ensures Charged(sys.processMemPool, dirFrame, pageFrame, mid)
    {
      var legitimate := AnyPoolAccepts(sys, m.cr2 as int);
      if !legitimate {
        return Fail(IllegitimateAddress), None, None, sys.processMemPool.bitmap[..];
      }
      r, dirFrame, pageFrame, mid := ServiceFault(m, sys.processMemPool, errCode);
    }

    /**
     * handle_fault past its legitimacy check (lines 110-133): if some
     * error-code bit other than bit 0 is set, the directory entry and then
     * the table entry of CR2 are filled from the process pool where not
     * present, each reached through its self-map address.  Under the
     * self-map only those two words can change, the self-map survives, and
     * afterwards CR2 translates.
     */
    static method ServiceFault(m: Machine, pool: ContFramePool, errCode: bv32)
      returns (r: Outcome<()>, ghost dirFrame: Option<u32>, ghost pageFrame: Option<u32>, ghost mid: seq<bv8>)
      requires m.Valid() && pool.Valid()
      modifies m.memory, pool, pool.bitmap
      ensures r.Fail? ==> r.failure in {NestedFault, NoFreeFrames, BitmapOverrun}
      ensures errCode & 0xFFFF_FFFE == 0 ==> r == Ok(()) && Unchanged(m) && dirFrame.None? && pageFrame.None?
      ensures Serviced(m, m.cr2, r.Ok? && errCode & 0xFFFF_FFFE != 0, dirFrame, pageFrame)
      ensures Charged(pool, dirFrame, pageFrame, mid)
    {
      if errCode & 0xFFFF_FFFE == 0 {
        return Ok(()), None, None, pool.bitmap[..];
      }
      r, dirFrame, pageFrame, mid := FillPath(m, pool, m.cr2);
    }

    /**
     * register_pool (lines 136-147): the pool goes into the first empty slot
     * of `vm_pool_list`; with none, the C code writes `vm_pool_list[512]`.
     */
    static method RegisterPool(sys: PagingState, pool: VMPool) returns (r: Outcome<()>)
      requires sys.vmPoolList.Length == POOL_SLOTS
      modifies sys.vmPoolList
      ensures var i := FirstNull(old(sys.vmPoolList[..]), 0);
              (i == POOL_SLOTS ==> r == Fail(PoolListOverrun) && sys.vmPoolList[..] == old(sys.vmPoolList[..])) &&
              (i < POOL_SLOTS ==> r == Ok(()) && sys.vmPoolList[..] == old(sys.vmPoolList[..])[i := pool])
    {
      var list := sys.vmPoolList;
      var i := 0;
      while i < POOL_SLOTS && list[i] != null
        invariant 0 <= i <= POOL_SLOTS
        invariant forall j :: 0 <= j < i ==> list[j] != null
      {
        i := i + 1;
      }
      assert i == FirstNull(list[..], 0);
      if i == POOL_SLOTS {
        return Fail(PoolListOverrun);
      }
      list[i] := pool;
      r := Ok(());
    }

    /**
     * free_page (lines 149-165): through the PTE pointer of the page, a
     * present entry's frame `entry >> 12` is handed to release_frames and
     * the entry becomes `0 | 2`; CR3 is then reloaded with this directory.
     * A failing release halts before either write.
     */
    method FreePage(sys: PagingState, m: Machine, page: u32) returns (r: Outcome<()>, ghost entry: bv32)
      requires m.Valid() && sys.framePools.Valid()
      modifies m, m.memory
      modifies if sys.framePools.head != null then {sys.framePools.head.bitmap} else {}
      modifies if sys.framePools.head != null && sys.framePools.head.next != null
               then {sys.framePools.head.next.bitmap} else {}
      ensures m.cr0 == old(m.cr0) && m.cr2 == old(m.cr2)
      ensures r.Ok? ==> m.cr3 == pageDirectory
      ensures r.Fail? ==> m.cr3 == old(m.cr3)
      ensures PageFreed(sys.framePools, m, page as bv32, r, entry)
    {
      r, entry := ClearPte(sys.framePools, m, page as bv32, pageDirectory);
    }
  }

  /**
   * free_page's effect on memory, with r its outcome: when the PTE pointer of
   * va does not translate, the handler itself faults; otherwise the word it
   * reaches is Cleared, and the release never reports such a fault.  Under
   * the self-map the translation fails exactly when va's directory entry is
   * not present (X86.Machine.SelfMapTable).
   */
  twostate predicate PteCleared(list: PoolList, m: Machine, va: bv32, new r: Outcome<()>): (b: bool)
    requires m.Valid()
    reads m.memory
    ensures b && r.Ok? ==>
              old(m.Translate(PteAddress(va))).Ok? && m.Word(old(m.Translate(PteAddress(va))).value) & PRESENT == 0
  {
    var t := old(m.Translate(PteAddress(va)));
    (t.Fail? <==> r == Fail(NestedFault)) &&
    (t.Fail? ==> Unchanged(m)) &&
    (t.Ok? ==> Cleared(list, m, t.value, r))
  }

  /**
   * free_page's whole effect on memory and on the frame pools, with r its
   * outcome and entry the word its PTE held (0 when the PTE pointer faults).
   */
  twostate predicate PageFreed(list: PoolList, m: Machine, va: bv32, new r: Outcome<()>, entry: bv32)
    requires m.Valid() && list.Linked()
    reads m.memory, list, list.head, if list.head != null then {list.head.bitmap} else {}
    reads if list.head != null && list.head.next != null then {list.head.next.bitmap} else {}
  {
    var t := old(m.Translate(PteAddress(va)));
    entry == (if t.Ok? then old(m.Word(t.value)) else 0) &&
    PteCleared(list, m, va, r) &&
    EntryReleased(list, entry)
  }

  /**
   * The body of free_page, for the directory at dir: the PTE pointer of va
   * is translated (a failing translation is a fault inside the handler),
   * the word it reaches is cleared, and CR3 is reloaded with dir.
   */
  method ClearPte(list: PoolList, m: Machine, va: bv32, dir: bv32) returns (r: Outcome<()>, ghost entry: bv32)
    requires m.Valid() && list.Valid()
    modifies m, m.memory
    modifies if list.head != null then {list.head.bitmap} else {}
    modifies if list.head != null && list.head.next != null then {list.head.next.bitmap} else {}
    ensures m.cr0 == old(m.cr0) && m.cr2 == old(m.cr2)
    ensures m.cr3 == if r.Ok? then dir else old(m.cr3)
    ensures PageFreed(list, m, va, r, entry)
  {
    var t := m.Translate(PteAddress(va));
    if t.Fail? {
      return Fail(NestedFault), 0;
    }
    entry := m.Word(t.value);
    r := ClearEntry(list, m, t.value, dir);
  }

  /**
   * free_page's effect on the word at physical address pa, with r its
   * outcome: a word without the present bit is left alone; a present one
   * has its frame `entry >> 12` released, and unless that release halts the
   * word becomes `0 | 2`.  No other word changes.
   */
  twostate predicate Cleared(list: PoolList, m: Machine, pa: bv32, new r: Outcome<()>): (b: bool)
    requires m.Valid()
    reads m.memory
    ensures b && r.Ok? ==> m.Word(pa) & PRESENT == 0
    ensures b && r.Fail? ==> m.Word(pa) == old(m.Word(pa))
  {
    var e := old(m.Word(pa));
    r == (if e & PRESENT == 0 then Ok(()) else old(list.ReleaseResult(FrameNo(e)))) &&
    m.Word(pa) == (if e & PRESENT != 0 && r.Ok? then NOT_PRESENT_ENTRY else e) &&
    forall g, x :: 0 <= g < FRAME_LIMIT && 0 <= x < ENTRIES && (g != FrameNo(pa) || x != WordNo(pa)) ==>
      m.Entry(g, x) == old(m.Entry(g, x))
  }

  /**
   * free_page's effect on the frame pools, with e the word its PTE held
   * (0 when the PTE pointer itself faults): without the present bit no
   * bitmap changes; with it, the frame `e >> 12` is released from the pool
   * that owns it, and no other pool's bitmap changes.
   */
  twostate predicate EntryReleased(list: PoolList, e: bv32)
    requires list.Linked()
    reads list, list.head, if list.head != null then {list.head.bitmap} else {}
    reads if list.head != null && list.head.next != null then {list.head.next.bitmap} else {}
  {
    if e & PRESENT == 0 then list.Kept(null) else list.FramesReleased(FrameNo(e))
  }

  method ClearWord(m: Machine, pa: bv32)
    requires m.Valid()
    modifies m.memory
    ensures m.Word(pa) == NOT_PRESENT_ENTRY
    ensures forall g, x :: 0 <= g < FRAME_LIMIT && 0 <= x < ENTRIES && (g != FrameNo(pa) || x != WordNo(pa)) ==>
      m.Entry(g, x) == old(m.Entry(g, x))
  {
    var f, w := FrameNo(pa), WordNo(pa);
    m.Store(f, w, NOT_PRESENT_ENTRY);
  }

  /**
   * free_page from its present-bit test on the word at physical address pa
   * to the CR3 reload with dir, which follows unless the release halts.
   */
  method ClearEntry(list: PoolList, m: Machine, pa: bv32, dir: bv32) returns (r: Outcome<()>)
    requires m.Valid() && list.Valid()
    modifies m, m.memory
    modifies if list.head != null then {list.head.bitmap} else {}
    modifies if list.head != null && list.head.next != null then {list.head.next.bitmap} else {}
    ensures m.cr0 == old(m.cr0) && m.cr2 == old(m.cr2)
    ensures m.cr3 == if r.Ok? then dir else old(m.cr3)
    ensures Cleared(list, m, pa, r)
    ensures EntryReleased(list, old(m.Word(pa)))
  {
    var entry := m.Word(pa);
    if entry & PRESENT == 0 {
      m.WriteCr3(dir);
      assert list.Linked() && list.Kept(null);
      return Ok(());
    }
    r := ReleaseEntry(list, m, pa, FrameNo(entry), dir);
  }

  /**
   * free_page's work on a present word at physical address pa: the frame is
   * released, and only when the release returns does the word become
   * `0 | 2` and CR3 get reloaded with dir.
   */
  method ReleaseEntry(list: PoolList, m: Machine, pa: bv32, frame: u32, dir: bv32) returns (r: Outcome<()>)
    requires m.Valid() && list.Valid()
    modifies m, m.memory
    modifies if list.head != null then {list.head.bitmap} else {}
    modifies if list.head != null && list.head.next != null then {list.head.next.bitmap} else {}
    ensures m.cr0 == old(m.cr0) && m.cr2 == old(m.cr2)
    ensures m.cr3 == if r.Ok? then dir else old(m.cr3)
    ensures r == old(list.ReleaseResult(frame))
    ensures list.FramesReleased(frame)
    ensures m.Word(pa) == if r.Ok? then NOT_PRESENT_ENTRY else old(m.Word(pa))
    ensures forall g, x :: 0 <= g < FRAME_LIMIT && 0 <= x < ENTRIES && (g != FrameNo(pa) || x != WordNo(pa)) ==>
      m.Entry(g, x) == old(m.Entry(g, x))
  {
    r := ContFramePool.ReleaseFrames(list, frame);
    assert unchanged(m.memory);
    if r.Fail? {
      return;
    }
    ClearWord(m, pa);
    m.WriteCr3(dir);
  }

  /**
   * What the fault handler leaves behind under the self-map, with dirFrame
   * and pageFrame the frames it drew for va's directory and table entries:
   * the map survives; a present directory entry keeps its value and draws
   * nothing, and so does a present table entry under a present directory
   * entry; a drawn frame is named by its entry as `frame * PAGE_SIZE | 3`;
   * no word other than those two entries changes; and when `filled` both
   * entries are present, va translates, and a frame was drawn for each
   * entry that was absent.
   */
  twostate predicate Serviced(m: Machine, va: bv32, filled: bool, new dirFrame: Option<u32>, new pageFrame: Option<u32>)
    : (b: bool)
    requires m.Valid()
    reads m, m.memory
    ensures b && old(m.SelfMapped()) &&
            old(m.DirEntry(va)) & PRESENT == PRESENT && old(m.TableEntry(va)) & PRESENT == PRESENT ==>
              m.Translate(va) == old(m.Translate(va))
  {
    old(m.SelfMapped()) ==>
      m.SelfMapped() &&
      (old(m.DirEntry(va)) & PRESENT == PRESENT ==> m.DirEntry(va) == old(m.DirEntry(va)) && dirFrame.None?) &&
      (filled && old(m.DirEntry(va)) & PRESENT == 0 ==> dirFrame.Some?) &&
      (filled && old(m.DirEntry(va)) & PRESENT == PRESENT && old(m.TableEntry(va)) & PRESENT == 0 ==>
         pageFrame.Some?) &&
      (old(m.DirEntry(va)) & PRESENT == PRESENT && old(m.TableEntry(va)) & PRESENT == PRESENT ==>
         m.TableEntry(va) == old(m.TableEntry(va)) && pageFrame.None?) &&
      (dirFrame.Some? ==> dirFrame.value < FRAME_LIMIT && m.DirEntry(va) == EntryFor(dirFrame.value)) &&
      (pageFrame.Some? ==> pageFrame.value < FRAME_LIMIT && m.TableEntry(va) == EntryFor(pageFrame.value)) &&
      (filled ==>
         m.DirEntry(va) & PRESENT == PRESENT && m.TableEntry(va) & PRESENT == PRESENT && m.Translate(va).Ok?) &&
      (forall g, x ::
         0 <= g < FRAME_LIMIT && 0 <= x < ENTRIES &&
         (g != FrameNo(m.cr3) || x != DirIndex(va)) &&
         (g != FrameNo(m.DirEntry(va)) || x != TableIndex(va))
         ==> m.Entry(g, x) == old(m.Entry(g, x)))
  }

  /**
   * Two get_frames(1) calls in a row on one pool, with dirFrame and
   * pageFrame what they handed out and mid the bitmap between them: each
   * call's frame and bitmap are Allocate's (TookOne), both frames are frames
   * of the pool, and the counter drops by one per frame; with none, the pool
   * is as it was.
   */
  twostate predicate Charged(pool: ContFramePool, new dirFrame: Option<u32>, new pageFrame: Option<u32>, mid: seq<bv8>)
    requires pool.Valid()
    reads pool, pool.bitmap
  {
    old(pool.nFreeFrames) >= Count(dirFrame) + Count(pageFrame) &&
    pool.nFreeFrames == old(pool.nFreeFrames) - Count(dirFrame) - Count(pageFrame) &&
    (dirFrame.Some? ==> pool.baseFrameNo <= dirFrame.value < pool.baseFrameNo + pool.nframes) &&
    (pageFrame.Some? ==> pool.baseFrameNo <= pageFrame.value < pool.baseFrameNo + pool.nframes) &&
    TookOne(old(pool.bitmap[..]), dirFrame, mid, pool.baseFrameNo) &&
    TookOne(mid, pageFrame, pool.bitmap[..], pool.baseFrameNo)
  }

  /**
   * handle_fault's fill once the address is found legitimate and the error
   * code calls for it: directory entry, then table entry, each through its
   * self-map pointer.  Under the self-map the pointers reach va's own
   * entries (FillMappedPath); otherwise they go through the MMU as they are
   * (FillThroughPath).
   */
  method FillPath(m: Machine, pool: ContFramePool, va: bv32)
    returns (r: Outcome<()>, ghost dirFrame: Option<u32>, ghost pageFrame: Option<u32>, ghost mid: seq<bv8>)
    requires m.Valid() && pool.Valid()
    modifies m.memory, pool, pool.bitmap
    ensures r.Fail? ==> r.failure in {NestedFault, NoFreeFrames, BitmapOverrun} && pageFrame.None?
    ensures Serviced(m, va, r.Ok?, dirFrame, pageFrame)
    ensures Charged(pool, dirFrame, pageFrame, mid)
  {
    if m.SelfMapped() {
      r, dirFrame, pageFrame, mid := FillMappedPath(m, pool, va);
    } else {
      r, dirFrame, pageFrame, mid := FillThroughPath(m, pool, va);
    }
  }

  /**
   * FillPath under the self-map: va's directory entry in the directory
   * frame, then, once that entry is present, va's table entry in the table
   * frame it names.
   */
  method FillMappedPath(m: Machine, pool: ContFramePool, va: bv32)
    returns (r: Outcome<()>, ghost dirFrame: Option<u32>, ghost pageFrame: Option<u32>, ghost mid: seq<bv8>)
    requires m.Valid() && pool.Valid() && m.SelfMapped()
    modifies m.memory, pool, pool.bitmap
    ensures r.Fail? ==> r.failure in {NoFreeFrames, BitmapOverrun} && pageFrame.None?
    ensures Serviced(m, va, r.Ok?, dirFrame, pageFrame)
    ensures Charged(pool, dirFrame, pageFrame, mid)
  {
    ghost var d0, t0 := m.DirEntry(va), m.TableEntry(va);
    var dir := FillMappedDirectory(m, pool, va);
    dirFrame, pageFrame, mid := Drawn(dir), None, pool.bitmap[..];
    if dir.Fail? {
      r := Fail(dir.failure);
    } else {
      ghost var d1 := m.DirEntry(va);
      var page := FillMappedTable(m, pool, va);
      pageFrame := Drawn(page);
      assert m.DirEntry(va) == d1;
      r := if page.Fail? then Fail(page.failure) else Ok(());
    }
  }

  /**
   * FillPath without the self-map: the PDE pointer and then the PTE pointer
   * of va go through the MMU as they are; present entries are never
   * overwritten.
   */
  method FillThroughPath(m: Machine, pool: ContFramePool, va: bv32)
    returns (r: Outcome<()>, ghost dirFrame: Option<u32>, ghost pageFrame: Option<u32>, ghost mid: seq<bv8>)
    requires m.Valid() && pool.Valid()
    modifies m.memory, pool, pool.bitmap
    ensures r.Fail? ==> r.failure in {NestedFault, NoFreeFrames, BitmapOverrun} && pageFrame.None?
    ensures PresentKept(m)
    ensures Charged(pool, dirFrame, pageFrame, mid)
  {
    var dir := FillThrough(m, pool, PdeAddress(va));
    dirFrame, pageFrame, mid := Drawn(dir), None, pool.bitmap[..];
    if dir.Fail? {
      r := Fail(dir.failure);
    } else {
      var page := FillThrough(m, pool, PteAddress(va));
      pageFrame := Drawn(page);
      r := if page.Fail? then Fail(page.failure) else Ok(());
    }
  }

  /**
   * The page tables the constructor leaves, for a directory and a table at
   * these addresses: directory slot 0 is `page_table | 3`, slots 1..1022 are
   * `0 | 2`, slot 1023 is `page_directory | 3`, and the table identity-maps
   * frames 0..1023 unless it shares the directory's frame.
   */
  ghost predicate SelfMappedTables(m: Machine, directory: bv32, table: bv32)
    requires m.Valid()
    reads m, m.memory
  {
    var d, t := FrameNo(directory), FrameNo(table);
    m.Entry(d, 0) == table | 3 &&
    (forall j :: 1 <= j < ENTRIES - 1 ==> m.Entry(d, j) == NOT_PRESENT_ENTRY) &&
    m.Entry(d, ENTRIES - 1) == directory | 3 &&
    (t != d ==> IdentityTable(m, t))
  }

  /**
   * In those tables slot 0 is a present entry with flags 3 for the table's
   * frame, and the directory maps itself through slot 1023.
   */
  lemma SelfMappedEntries(m: Machine, directory: bv32, table: bv32)
    requires m.Valid() && directory & 0xFFF == 0 && table & 0xFFF == 0 && SelfMappedTables(m, directory, table)
    ensures var d := FrameNo(directory);
            m.Entry(d, 0) & 0xFFF == 3 && m.Entry(d, 0) & PRESENT == PRESENT && FrameNo(m.Entry(d, 0)) == FrameNo(table) &&
            m.SelfEntry(directory)
  {
    TaggedEntry(directory);
    TaggedEntry(table);
  }

  /**
   * The constructor's writes: the identity table, directory slot 0, the
   * not-present slots, and finally slot 1023 `page_directory | 3`.
   */
  method BuildSelfMapped(m: Machine, directory: bv32, table: bv32)
    requires m.Valid() && directory & 0xFFF == 0 && table & 0xFFF == 0
    modifies m.memory
    ensures SelfMappedTables(m, directory, table)
    ensures forall g, x ::
              0 <= g < FRAME_LIMIT && 0 <= x < ENTRIES && g != FrameNo(directory) && g != FrameNo(table) ==>
              m.Entry(g, x) == old(m.Entry(g, x))
  {
    BuildTables(m, directory, table);
    TaggedEntry(directory);
    m.Store(FrameNo(directory), ENTRIES - 1, directory | 3);
  }

  /**
   * handle_fault's `pool_count` loop (lines 86-93): the occupied slots among
   * the 512.
   */
  method PoolCount(sys: PagingState) returns (n: int)
    requires sys.vmPoolList.Length == POOL_SLOTS
    ensures n == CountRegistered(sys.vmPoolList[..])
  {
    var list := sys.vmPoolList;
    n := 0;
    var i := 0;
    while i < POOL_SLOTS
      invariant 0 <= i <= POOL_SLOTS
      invariant n == CountRegistered(list[..i])
    {
      assert list[..i + 1][..i] == list[..i];
      if list[i] != null {
        n := n + 1;
      }
      i := i + 1;
    }
    assert list[..POOL_SLOTS] == list[..];
  }

  /**
   * handle_fault's legitimacy loop (lines 95-108): whether one of the first
   * `pool_count` registered pools accepts a.
   */
  method AnyPoolAccepts(sys: PagingState, a: u32) returns (b: bool)
    requires sys.Registry()
    ensures b == Accepted(sys.vmPoolList, a)
    ensures forall j :: 0 <= j < CountRegistered(sys.vmPoolList[..]) ==> sys.vmPoolList[j] != null
  {
    var list := sys.vmPoolList;
    var count := PoolCount(sys);
    PackedCount(list[..]);
    var i := 0;
    while i < count
      invariant 0 <= i <= count
      invariant forall j :: 0 <= j < i ==> !Accepts(list[j], a)
    {
      var pool := list[i];
      var ok := pool.IsLegitimate(a);
      if ok {
        return true;
      }
      i := i + 1;
    }
    return false;
  }

  /* ----------------------------------------------------------- VMPool */

  class VMPool {
    const baseAddress: u32
    const size: u32
    const framePool: ContFramePool?
    const pageTable: PageTable
    /** `region_list`: 512 `(start_address, size)` slots. */
    const regionList: array<Region>

    ghost predicate Valid()
    {
      regionList.Length == REGION_SLOTS
    }

    /**
     * The region list occupies memory of its own: it is not the bitmap of
     * a pool release_frames can reach.
     */
    ghost predicate Apart(list: PoolList)
      reads list, list.head
    {
      forall p :: p in list.Pools() ==> p.bitmap as object != regionList
    }

    /** The field assignments of the constructor; the list is set up by Create. */
    constructor Init(base: u32, size: u32, framePool: ContFramePool?, pageTable: PageTable)
      ensures Valid() && fresh(regionList)
      ensures baseAddress == base && this.size == size && this.framePool == framePool && this.pageTable == pageTable
    {
      baseAddress := base;
      this.size := size;
      this.framePool := framePool;
      this.pageTable := pageTable;
      regionList := new Region[REGION_SLOTS];
    }

    /**
     * The constructor (lines 48-71): the pool registers itself with the page
     * table, then slot 0 gets the pool's own page and slots 1..511 `(0, 0)`.
     * A full registry is the write to `vm_pool_list[512]`.
     */
    static method Create(sys: PagingState, base: u32, size: u32, framePool: ContFramePool?, pageTable: PageTable)
      returns (r: Outcome<VMPool>)
      requires sys.vmPoolList.Length == POOL_SLOTS
      modifies sys.vmPoolList
      ensures var i := FirstNull(old(sys.vmPoolList[..]), 0);
              (i == POOL_SLOTS ==> r == Fail(PoolListOverrun) && sys.vmPoolList[..] == old(sys.vmPoolList[..])) &&
              (i < POOL_SLOTS ==>
                 r.Ok? && fresh(r.value) && fresh(r.value.regionList) && r.value.Valid() &&
                 r.value.baseAddress == base && r.value.size == size &&
                 r.value.regionList[..] == InitialRegions(base) &&
                 sys.vmPoolList[..] == old(sys.vmPoolList[..])[i := r.value])
      ensures old(sys.Registry()) ==> sys.Registry()
    {
      var pool := new VMPool.Init(base, size, framePool, pageTable);
      var registered := PageTable.RegisterPool(sys, pool);
      if old(sys.Registry()) && registered.Ok? {
        RegisterKeepsPacked(old(sys.vmPoolList[..]), pool);
      }
      if registered.Fail? {
        return Fail(registered.failure);
      }
      pool.InitRegions();
      r := Ok(pool);
    }

    /** The constructor's writes to the region list. */
    method InitRegions()
      requires Valid()
      modifies regionList
      ensures regionList[..] == InitialRegions(baseAddress)
    {
      regionList[0] := Region(baseAddress, VMRegions.PAGE_SIZE);
      var i := 1;
      while i < REGION_SLOTS
        invariant 1 <= i <= REGION_SLOTS
        invariant regionList[0] == Region(baseAddress, VMRegions.PAGE_SIZE)
        invariant forall j :: 1 <= j < i ==> regionList[j] == Region(0, 0)
      {
        regionList[i] := Region(0, 0);
        i := i + 1;
      }
    }

    /**
     * allocate (lines 73-97): the first free slot from 1 on gets a region
     * starting where the slot before it ends; the start is returned.
     */
    method Allocate(request: u32) returns (r: Outcome<u32>)
      requires Valid()
      modifies regionList
      ensures match AllocateIn(old(regionList[..]), request)
              case Ok(p) => r == Ok(p.start) && regionList[..] == p.regions
              case Fail(f) => r == Fail(f) && regionList[..] == old(regionList[..])
    {
      var allocatedSize := VMRegions.PAGE_SIZE;
      if request > VMRegions.PAGE_SIZE {
        allocatedSize := Wrap32(VMRegions.PAGE_SIZE * (request / VMRegions.PAGE_SIZE) +
                                (if request % VMRegions.PAGE_SIZE == 0 then 0 else VMRegions.PAGE_SIZE));
      }
      var i := 1;
      while i < REGION_SLOTS && regionList[i].size != 0
        invariant 1 <= i <= REGION_SLOTS
        invariant forall j :: 1 <= j < i ==> regionList[j].size != 0
      {
        i := i + 1;
      }
      assert i == FirstEmpty(regionList[..], 1);
      if i == REGION_SLOTS {
        return Fail(RegionListOverrun);
      }
      var start := Wrap32(regionList[i - 1].start + regionList[i - 1].size);
      regionList[i] := Region(start, allocatedSize);
      r := Ok(start);
    }

    /**
     * release (lines 99-139): the first slot from 1 on with the given
     * start; free_page on `start + k` for k = PAGE_SIZE, 2*PAGE_SIZE, ... up
     * to and including the region's size; then the later slots move down
     * one place.  A missing start reads `region_list[512]`; a failing
     * free_page halts; the `int` counter k overflowing is undefined.
     */
    method Release(sys: PagingState, m: Machine, start: u32) returns (r: Outcome<()>, ghost freed: seq<u32>)
      requires Valid() && m.Valid() && sys.framePools.Valid() && Apart(sys.framePools)
      modifies regionList, m, m.memory
      modifies if sys.framePools.head != null then {sys.framePools.head.bitmap} else {}
      modifies if sys.framePools.head != null && sys.framePools.head.next != null
               then {sys.framePools.head.next.bitmap} else {}
      ensures ReleaseIn(old(regionList[..]), start).Fail? ==>
                r == Fail(RegionListOverrun) && Unchanged(m) && m.cr3 == old(m.cr3)
      ensures r.Ok? ==> regionList[..] == ReleaseIn(old(regionList[..]), start).value
      ensures r.Fail? ==> regionList[..] == old(regionList[..])
      ensures r.Ok? ==>
                var region := old(regionList[FirstStart(regionList[..], start, 1)]);
                freed == FreedPages(region.start, region.size / VMRegions.PAGE_SIZE)
    {
      freed := [];
      var i := 1;
      while i < REGION_SLOTS && regionList[i].start != start
        invariant 1 <= i <= REGION_SLOTS
        invariant forall j :: 1 <= j < i ==> regionList[j].start != start
      {
        i := i + 1;
      }
      assert i == FirstStart(regionList[..], start, 1);
      if i == REGION_SLOTS {
        return Fail(RegionListOverrun), freed;
      }
      r, freed := FreePages(sys, m, regionList[i]);
      if r.Fail? {
        return;
      }
      Compact(i);
      r := Ok(());
    }

    /**
     * release's freeing loop (lines 117-119): free_page on each page at
     * offsets PAGE_SIZE, 2*PAGE_SIZE, ... up to and including the region's
     * size, with a 32-bit address and a signed 32-bit offset counter.
     * `freed` lists the pages handed to free_page that returned.  The list
     * is kept by this loop itself: the contract does not tie it to what each
     * FreePage call did to memory or to the pools, whose effect PageFreed
     * states one page at a time.
     */
    method FreePages(sys: PagingState, m: Machine, region: Region) returns (r: Outcome<()>, ghost freed: seq<u32>)
      requires m.Valid() && sys.framePools.Valid()
      modifies m, m.memory
      modifies if sys.framePools.head != null then {sys.framePools.head.bitmap} else {}
      modifies if sys.framePools.head != null && sys.framePools.head.next != null
               then {sys.framePools.head.next.bitmap} else {}
      ensures freed == FreedPages(region.start, |freed|)
      ensures r.Ok? ==> |freed| == region.size / VMRegions.PAGE_SIZE
    {
      freed := [];
      var k := VMRegions.PAGE_SIZE;
      while k <= region.size
        invariant VMRegions.PAGE_SIZE <= k <= INT_MAX && k - VMRegions.PAGE_SIZE <= region.size
        invariant k == (|freed| + 1) * VMRegions.PAGE_SIZE
        invariant freed == FreedPages(region.start, |freed|)
        invariant m.Valid() && sys.framePools.Valid()
        decreases INT_MAX - k
      {
        var page := Wrap32(region.start + k);
        ghost var entry;
        var done;
        done, entry := pageTable.FreePage(sys, m, page);
        if done.Fail? {
          return done, freed;
        }
        freed := freed + [page];
        assert freed == FreedPages(region.start, |freed|);
        if k + VMRegions.PAGE_SIZE > INT_MAX {
          return Fail(CounterOverflow), freed;
        }
        k := k + VMRegions.PAGE_SIZE;
      }
      r := Ok(());
    }

    /** release's compaction loop (lines 121-134), from slot i. */
    method Compact(i: int)
      requires Valid() && 1 <= i < REGION_SLOTS
      modifies regionList
      ensures regionList[..] == Compacted(old(regionList[..]), i)
    {
      ghost var before := regionList[..];
      var j := i;
      while j < REGION_SLOTS - 1
        invariant i <= j <= REGION_SLOTS - 1
        invariant forall x :: 0 <= x < REGION_SLOTS ==>
                    regionList[x] == if i <= x < j then Compacted(before, i)[x] else before[x]
      {
        if regionList[j + 1].size != 0 {
          regionList[j] := regionList[j + 1];
        } else {
          regionList[j] := Region(0, 0);
        }
        j := j + 1;
      }
      assert regionList[..] == Compacted(before, i);
    }

    /**
     * is_legitimate (lines 141-171): the pool's base address, or an address
     * inside the closed range of some slot.
     */
    method IsLegitimate(a: u32) returns (b: bool)
      requires Valid()
      ensures b == Legitimate(baseAddress, regionList[..], a)
    {
      if a == baseAddress {
        return true;
      }
      ghost var rs := regionList[..];
      var i := 0;
      while i < REGION_SLOTS
        invariant 0 <= i <= REGION_SLOTS
        invariant forall j :: 0 <= j < i ==> !Covers(rs[j], a)
      {
        if a >= regionList[i].start && a <= Wrap32(regionList[i].start + regionList[i].size) {
          assert Covers(rs[i], a);
          return true;
        }
        i := i + 1;
      }
      return false;
    }
  }
}
