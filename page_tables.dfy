/**
 * What both page-table revisions write when a page table is constructed: a
 * table frame identity-mapping the first 4 MB and a directory frame whose
 * slot 0 names that table and whose other slots hold the not-present entry
 * `0 | 2`.  Frames are reached through their physical addresses, as the
 * kernel does before paging is on.
 */
module PageTables {
  import opened Common
  import opened X86

  /** No word of physical memory has changed. */
  twostate predicate Unchanged(m: Machine)
    requires m.Valid()
    reads m.memory
  {
    forall g, x :: 0 <= g < FRAME_LIMIT && 0 <= x < ENTRIES ==> m.Entry(g, x) == old(m.Entry(g, x))
  }

  /** Every word that held a present entry still holds it: present entries are never overwritten. */
  twostate predicate PresentKept(m: Machine)
    requires m.Valid()
    reads m.memory
  {
    forall g, x :: 0 <= g < FRAME_LIMIT && 0 <= x < ENTRIES && old(m.Entry(g, x)) & PRESENT == PRESENT ==>
      m.Entry(g, x) == old(m.Entry(g, x))
  }

  /** Table frame t maps its i-th page to frame i, for every i: `page_table[i] = i*4096 | 3`. */
  ghost predicate IdentityTable(m: Machine, t: int)
    requires m.Valid() && 0 <= t < FRAME_LIMIT
    reads m, m.memory
  {
    forall i :: 0 <= i < ENTRIES ==> m.Entry(t, i) == EntryFor(i)
  }

  /**
   * The constructor's writes into its two frames: the identity table, then
   * directory slot 0 naming the table and every other slot `0 | 2`.
   */
  method BuildTables(m: Machine, directory: bv32, table: bv32)
    requires m.Valid() && table & 0xFFF == 0
    modifies m.memory
    ensures var d := FrameNo(directory);
            var t := FrameNo(m.Entry(d, 0));
            t == FrameNo(table) && m.Entry(d, 0) == table | 3 &&
            m.Entry(d, 0) & 0xFFF == 3 && m.Entry(d, 0) & PRESENT == PRESENT &&
            (forall j :: 1 <= j < ENTRIES ==> m.Entry(d, j) == NOT_PRESENT_ENTRY) &&
            (t != d ==> IdentityTable(m, t)) &&
            (forall g, x :: 0 <= g < FRAME_LIMIT && 0 <= x < ENTRIES && g != d && g != t ==>
               m.Entry(g, x) == old(m.Entry(g, x)))
  {
    var d, t := FrameNo(directory), FrameNo(table);
    FillIdentity(m, t);
    m.Store(d, 0, table | 3);
    TaggedEntry(table);
    FillNotPresent(m, d, 1);
  }

  /** The identity-table loop of the constructor. */
  method FillIdentity(m: Machine, t: int)
    requires m.Valid() && 0 <= t < FRAME_LIMIT
    modifies m.memory
    ensures IdentityTable(m, t)
    ensures forall g, x :: 0 <= g < FRAME_LIMIT && 0 <= x < ENTRIES && g != t ==>
              m.Entry(g, x) == old(m.Entry(g, x))
  {
    var i := 0;
    while i < ENTRIES
      invariant 0 <= i <= ENTRIES
      invariant forall k :: 0 <= k < i ==> m.Entry(t, k) == EntryFor(k)
      invariant forall g, x :: 0 <= g < FRAME_LIMIT && 0 <= x < ENTRIES && g != t ==>
                  m.Entry(g, x) == old(m.Entry(g, x))
    {
      m.Store(t, i, EntryFor(i));
      i := i + 1;
    }
  }

  /** Slots from..1023 of directory frame d become `0 | 2`. */
  method FillNotPresent(m: Machine, d: int, from: nat)
    requires m.Valid() && 0 <= d < FRAME_LIMIT && from <= ENTRIES
    modifies m.memory
    ensures forall j :: from <= j < ENTRIES ==> m.Entry(d, j) == NOT_PRESENT_ENTRY
    ensures forall g, x :: 0 <= g < FRAME_LIMIT && 0 <= x < ENTRIES && (g != d || x < from) ==>
              m.Entry(g, x) == old(m.Entry(g, x))
  {
    var j := from;
    while j < ENTRIES
      invariant from <= j <= ENTRIES
      invariant forall k :: from <= k < j ==> m.Entry(d, k) == NOT_PRESENT_ENTRY
      invariant forall g, x :: 0 <= g < FRAME_LIMIT && 0 <= x < ENTRIES && (g != d || x < from) ==>
                  m.Entry(g, x) == old(m.Entry(g, x))
    {
      m.Store(d, j, NOT_PRESENT_ENTRY);
      j := j + 1;
    }
  }
}
