/**
 * The region list of a VMPool (MP4/submissions/vm_pool.C) as a value: 512
 * `(start_address, size)` slots, slot 0 describing the page that holds the
 * list itself.  A slot of size 0 is free.  The functions below say what
 * allocate, release and is_legitimate do to and with that list; the VMPool
 * class in MP4Paging runs them in place on an array and is proved against
 * them.  Sums of addresses are `unsigned long` sums and wrap at 2^32.
 */
module VMRegions {
  import opened Common

  const PAGE_SIZE: int := 4096
  const REGION_SLOTS: int := 512

  datatype Region = Region(start: u32, size: u32)

  /** The first address past a region, in 32-bit arithmetic. */
  function End(r: Region): u32
  {
    Wrap32(r.start + r.size)
  }

  /** The list a new pool starts with: its own page in slot 0, every other slot empty. */
  function InitialRegions(base: u32): (rs: seq<Region>)
    ensures |rs| == REGION_SLOTS && rs[0] == Region(base, PAGE_SIZE)
    ensures forall j :: 1 <= j < |rs| ==> rs[j] == Region(0, 0)
  {
    seq(REGION_SLOTS, j => if j == 0 then Region(base, PAGE_SIZE) else Region(0, 0))
  }

  /* ------------------------------------------------------------ allocate */

  /**
   * allocate's `allocated_size`: one page for requests up to a page,
   * otherwise the request rounded up to whole pages.  The rounded value goes
   * through an `int` and back into the `unsigned long` size, so a request
   * within a page of 2^32 rounds to 2^32 and wraps to 0.
   */
  function AllocatedSize(request: u32): (r: u32)
    ensures request <= PAGE_SIZE ==> r == PAGE_SIZE
    ensures PAGE_SIZE < request <= TWO32 - PAGE_SIZE ==>
              r % PAGE_SIZE == 0 && request <= r < request + PAGE_SIZE
    ensures TWO32 - PAGE_SIZE < request ==> r == 0
  {
    if request <= PAGE_SIZE then PAGE_SIZE
    else Wrap32(PAGE_SIZE * (request / PAGE_SIZE) + (if request % PAGE_SIZE == 0 then 0 else PAGE_SIZE))
  }

  /** The first free slot at or after i, or |rs| when there is none. */
  function FirstEmpty(rs: seq<Region>, i: nat): (r: nat)
    requires i <= |rs|
    ensures i <= r <= |rs|
    ensures r < |rs| ==> rs[r].size == 0
    ensures forall j :: i <= j < r ==> rs[j].size != 0
    decreases |rs| - i
  {
    if i == |rs| then i
    else if rs[i].size == 0 then i
    else FirstEmpty(rs, i + 1)
  }

  datatype Placement = Placement(regions: seq<Region>, start: u32)

  /**
   * allocate: the first free slot from slot 1 on receives a region starting
   * where the slot before it ends.  With no free slot the C code reads
   * `region_list[512]`; the model reports the overrun and changes nothing.
   */
  function AllocateIn(rs: seq<Region>, request: u32): (r: Outcome<Placement>)
    requires |rs| >= 1
    ensures r.Fail? <==> forall j :: 1 <= j < |rs| ==> rs[j].size != 0
    ensures r.Fail? ==> r.failure == RegionListOverrun
    ensures r.Ok? ==>
              var i := FirstEmpty(rs, 1);
              r.value.regions == rs[i := Region(End(rs[i - 1]), AllocatedSize(request))] &&
              r.value.start == End(rs[i - 1])
  {
    var i := FirstEmpty(rs, 1);
    if i == |rs| then Fail(RegionListOverrun)
    else Ok(Placement(rs[i := Region(End(rs[i - 1]), AllocatedSize(request))], End(rs[i - 1])))
  }

  /* ------------------------------------------------------------- release */

  /** The first slot at or after i whose start is `start`, or |rs|. */
  function FirstStart(rs: seq<Region>, start: u32, i: nat): (r: nat)
    requires i <= |rs|
    ensures i <= r <= |rs|
    ensures r < |rs| ==> rs[r].start == start
    ensures forall j :: i <= j < r ==> rs[j].start != start
    decreases |rs| - i
  {
    if i == |rs| then i
    else if rs[i].start == start then i
    else FirstStart(rs, start, i + 1)
  }

  /**
   * release's compaction from slot i: every slot from i to the one before
   * last takes the next slot if that one is in use and becomes empty
   * otherwise; the slots below i and the last slot keep their contents.
   */
  function Compacted(rs: seq<Region>, i: nat): (r: seq<Region>)
    ensures |r| == |rs|
    ensures forall j :: 0 <= j < |rs| && (j < i || j == |rs| - 1) ==> r[j] == rs[j]
    ensures forall j :: i <= j < |rs| - 1 ==> r[j] == rs[j + 1] || r[j] == Region(0, 0)
    ensures forall j :: i <= j < |rs| - 1 && r[j].size == 0 ==> rs[j + 1].size == 0
  {
    seq(|rs|, j requires 0 <= j < |rs| =>
      if i <= j < |rs| - 1 then (if rs[j + 1].size != 0 then rs[j + 1] else Region(0, 0)) else rs[j])
  }

  /** release's effect on the list; with no matching slot the C code reads `region_list[512]`. */
  function ReleaseIn(rs: seq<Region>, start: u32): (r: Outcome<seq<Region>>)
    ensures r.Fail? <==> forall j :: 1 <= j < |rs| ==> rs[j].start != start
    ensures r.Fail? ==> r.failure == RegionListOverrun
    ensures r.Ok? ==> r.value == Compacted(rs, FirstStart(rs, start, 1)) && |r.value| == |rs|
  {
    if |rs| == 0 then Fail(RegionListOverrun)
    else
      var i := FirstStart(rs, start, 1);
      if i == |rs| then Fail(RegionListOverrun) else Ok(Compacted(rs, i))
  }

  /**
   * The addresses release hands to free_page for a region of n pages:
   * `start + k*PAGE_SIZE` for k = 1..n, in 32 bits.
   */
  function FreedPages(start: u32, n: nat): (s: seq<u32>)
    ensures |s| == n
    ensures forall j :: 0 <= j < n ==> s[j] % PAGE_SIZE == start % PAGE_SIZE
  {
    PageOffsetKept(start);
    seq(n, j => Wrap32(start + (j + 1) * PAGE_SIZE))
  }

  /** Adding whole pages in 32 bits keeps the offset within the page. */
  lemma PageOffsetKept(start: u32)
    ensures forall k: nat {:trigger Wrap32(start + k * PAGE_SIZE)} ::
              Wrap32(start + k * PAGE_SIZE) % PAGE_SIZE == start % PAGE_SIZE
  {
    forall k: nat
      ensures Wrap32(start + k * PAGE_SIZE) % PAGE_SIZE == start % PAGE_SIZE
    {
      var x := start + k * PAGE_SIZE;
      assert x == Wrap32(x) + (x / TWO32) * TWO32;
      assert TWO32 == 0x10_0000 * PAGE_SIZE;
      assert x == Wrap32(x) + (x / TWO32 * 0x10_0000) * PAGE_SIZE;
      assert x % PAGE_SIZE == start % PAGE_SIZE;
    }
  }

  /**
   * release's loop is shifted by one page: for a whole-page region that does
   * not wrap, the region's first page is not freed and the page just past
   * its end is.
   */
  lemma FreedPagesShifted(start: u32, size: u32)
    requires size % PAGE_SIZE == 0 && 0 < size && start + size < TWO32
    ensures var s := FreedPages(start, size / PAGE_SIZE);
            start !in s && s[|s| - 1] == start + size
  {
    var s := FreedPages(start, size / PAGE_SIZE);
    forall j | 0 <= j < |s|
      ensures s[j] == start + (j + 1) * PAGE_SIZE > start
    {
    }
  }

  /* ------------------------------------------------------- is_legitimate */

  /** The closed interval test of is_legitimate, with the sum taken in 32 bits. */
  predicate Covers(r: Region, a: u32): (b: bool)
    ensures b ==> r.start <= a
  {
    r.start <= a <= End(r)
  }

  /**
   * Away from 32-bit wrap-around the test is the closed interval
   * start..start+size: the address one past the region is accepted too.
   */
  lemma CoversClosed(r: Region, a: u32)
    requires r.start + r.size < TWO32
    ensures Covers(r, a) <==> r.start <= a <= r.start + r.size
  {
  }

  /** is_legitimate: the pool's base address, or an address some slot covers. */
  predicate Legitimate(base: u32, rs: seq<Region>, a: u32): (b: bool)
    ensures a == base ==> b
  {
    a == base || exists j :: 0 <= j < |rs| && Covers(rs[j], a)
  }

  /* ---------------------------------------------------------- invariants */

  /** The slots in use form a prefix that starts at slot 0. */
  ghost predicate Packed(rs: seq<Region>)
  {
    |rs| >= 1 && rs[0].size != 0 &&
    forall j :: 1 <= j < |rs| && rs[j].size != 0 ==> rs[j - 1].size != 0
  }

  /** Every slot in use after slot 0 starts where the slot before it ends. */
  ghost predicate Contiguous(rs: seq<Region>)
  {
    forall j :: 1 <= j < |rs| && rs[j].size != 0 ==> rs[j].start == End(rs[j - 1])
  }

  /** The slots in use lie in increasing order without overlap, and none wraps past 2^32. */
  ghost predicate Ordered(rs: seq<Region>)
  {
    (forall j :: 0 <= j < |rs| && rs[j].size != 0 ==> rs[j].start + rs[j].size < TWO32) &&
    (forall j :: 1 <= j < |rs| && rs[j].size != 0 ==> rs[j - 1].start + rs[j - 1].size <= rs[j].start)
  }

  lemma InitialInvariants(base: u32)
    requires base + PAGE_SIZE < TWO32
    ensures Packed(InitialRegions(base)) && Contiguous(InitialRegions(base))
    ensures Ordered(InitialRegions(base))
  {
  }

  /** In a packed list the in-use slots are exactly those before the first free one. */
  lemma {:induction false} PackedPrefix(rs: seq<Region>, j: nat)
    requires Packed(rs) && j < |rs|
    ensures rs[j].size != 0 <==> j < FirstEmpty(rs, 1)
    decreases j
  {
    if j >= 1 && rs[j].size != 0 {
      PackedPrefix(rs, j - 1);
    }
    if 1 <= j < FirstEmpty(rs, 1) {
      assert rs[j].size != 0;
    }
  }

  lemma AllocateKeepsPacked(rs: seq<Region>, request: u32)
    requires Packed(rs) && AllocateIn(rs, request).Ok?
    ensures Packed(AllocateIn(rs, request).value.regions)
  {
    var i := FirstEmpty(rs, 1);
    var rs' := AllocateIn(rs, request).value.regions;
    forall j | 1 <= j < |rs'| && rs'[j].size != 0
      ensures rs'[j - 1].size != 0
    {
      if j > i {
        PackedPrefix(rs, j);
      }
    }
  }

  lemma AllocateKeepsContiguous(rs: seq<Region>, request: u32)
    requires Packed(rs) && Contiguous(rs) && AllocateIn(rs, request).Ok?
    ensures Contiguous(AllocateIn(rs, request).value.regions)
  {
  }

  /**
   * Allocation keeps the list ordered as long as the new region does not
   * reach past 2^32.
   */
  lemma AllocateKeepsOrdered(rs: seq<Region>, request: u32)
    requires Packed(rs) && Ordered(rs) && AllocateIn(rs, request).Ok?
    requires var i := FirstEmpty(rs, 1);
             rs[i - 1].start + rs[i - 1].size + AllocatedSize(request) < TWO32
    ensures Ordered(AllocateIn(rs, request).value.regions)
  {
    var i := FirstEmpty(rs, 1);
    var rs' := AllocateIn(rs, request).value.regions;
    assert rs[i - 1].size != 0 by {
      PackedPrefix(rs, i - 1);
    }
  }

  /** The region allocate hands out is legitimate afterwards, from its first to its last address. */
  lemma AllocatedIsLegitimate(base: u32, rs: seq<Region>, request: u32, a: u32)
    requires |rs| >= 1 && AllocateIn(rs, request).Ok?
    requires var p := AllocateIn(rs, request).value;
             p.start + AllocatedSize(request) < TWO32 && p.start <= a <= p.start + AllocatedSize(request)
    ensures Legitimate(base, AllocateIn(rs, request).value.regions, a)
  {
    var i := FirstEmpty(rs, 1);
    assert Covers(AllocateIn(rs, request).value.regions[i], a);
  }

  lemma ReleaseKeepsPacked(rs: seq<Region>, start: u32)
    requires Packed(rs) && ReleaseIn(rs, start).Ok?
    ensures Packed(ReleaseIn(rs, start).value)
  {
  }

  /**
   * Release keeps the list ordered when the last slot is free: each
   * surviving region only moves down past the one removed.
   */
  lemma ReleaseKeepsOrdered(rs: seq<Region>, start: u32)
    requires Packed(rs) && Ordered(rs) && ReleaseIn(rs, start).Ok? && rs[|rs| - 1].size == 0
    ensures Ordered(ReleaseIn(rs, start).value)
  {
    var i := FirstStart(rs, start, 1);
    var rs' := ReleaseIn(rs, start).value;
    forall j | 1 <= j < |rs'| && rs'[j].size != 0
      ensures rs'[j - 1].start + rs'[j - 1].size <= rs'[j].start
    {
      if j == i {
        ConsecutiveOrdered(rs, i - 1, i + 1);
      }
    }
  }

  /** In an ordered packed list, an earlier region in use ends before a later one starts. */
  lemma {:induction false} ConsecutiveOrdered(rs: seq<Region>, j: nat, k: nat)
    requires Packed(rs) && Ordered(rs) && j < k < |rs| && rs[k].size != 0
    ensures rs[j].start + rs[j].size <= rs[k].start
    decreases k - j
  {
    if j + 1 < k {
      PackedPrefix(rs, k);
      PackedPrefix(rs, k - 1);
      ConsecutiveOrdered(rs, j, k - 1);
    }
  }

  /**
   * With every slot in use, release copies the last slot down but does not
   * clear it, so the last region is listed twice.
   */
  lemma ReleaseFullDuplicatesLast(rs: seq<Region>, start: u32)
    requires |rs| >= 2 && rs[|rs| - 1].size != 0 && ReleaseIn(rs, start).Ok?
    requires FirstStart(rs, start, 1) < |rs| - 1
    ensures ReleaseIn(rs, start).value[|rs| - 2] == ReleaseIn(rs, start).value[|rs| - 1] == rs[|rs| - 1]
  {
  }

  /**
   * Release does not keep regions contiguous: freeing a middle region leaves
   * the gap it occupied.  Here the pool's page at 0x1000 is followed by
   * regions at 0x2000 and 0x3000, and releasing the first of them moves the
   * one at 0x3000 down to slot 1.
   */
  lemma ReleaseLeavesGap()
    ensures var rs := InitialRegions(0x1000)[1 := Region(0x2000, 0x1000)][2 := Region(0x3000, 0x1000)];
            Contiguous(rs) && ReleaseIn(rs, 0x2000).Ok? && !Contiguous(ReleaseIn(rs, 0x2000).value)
  {
    var rs := InitialRegions(0x1000)[1 := Region(0x2000, 0x1000)][2 := Region(0x3000, 0x1000)];
    assert FirstStart(rs, 0x2000, 1) == 1;
    var rs' := ReleaseIn(rs, 0x2000).value;
    assert rs'[1] == Region(0x3000, 0x1000) && rs'[0] == Region(0x1000, 0x1000);
  }

  /** An empty slot is `(0, 0)` and so covers address 0: is_legitimate accepts 0 in every pool. */
  lemma ZeroIsLegitimate(base: u32, rs: seq<Region>)
    requires exists j :: 0 <= j < |rs| && rs[j] == Region(0, 0)
    ensures Legitimate(base, rs, 0)
  {
    var j :| 0 <= j < |rs| && rs[j] == Region(0, 0);
    assert Covers(rs[j], 0);
  }
}
