/**
 * The parts of the 32-bit x86 machine the paging code touches: the control
 * registers, physical memory as 4 KB frames of 1024 32-bit words, the
 * two-level address translation of the MMU, and the entry arithmetic of
 * both page-table revisions.
 */
module X86 {
  import opened Common

  const PAGE_SIZE: int := 4096
  const ENTRIES: int := 1024

  /** CR0 bit 31, PG. */
  const CR0_PG: bv32 := 0x8000_0000

  /** Entry bits: 1 present, 2 read/write. */
  const PRESENT: bv32 := 1

  /** The "supervisor, read/write, not present" entry `0 | 2`. */
  const NOT_PRESENT_ENTRY: bv32 := 2

  /* ---------------------------------------------------- address fields */

  /** Directory index `a >> 22`. */
  function DirBits(a: bv32): bv10
  {
    (a >> 22) as bv10
  }

  /** Table index `(a >> 12) & 0x3FF`. */
  function TableBits(a: bv32): bv10
  {
    ((a >> 12) & 0x3FF) as bv10
  }

  /** The frame an address (or an entry's address bits) lies in: `a >> 12`. */
  function FrameBits(a: bv32): bv20
  {
    (a >> 12) as bv20
  }

  /** The word of its frame a word-aligned address names: `(a & 0xFFF) >> 2`. */
  function WordBits(a: bv32): bv10
  {
    ((a & 0xFFF) >> 2) as bv10
  }

  /** The physical address of frame f, `f * PAGE_SIZE`. */
  function FrameAddress(f: bv20): (a: bv32)
    ensures a & 0xFFF == 0 && FrameBits(a) == f
  {
    (f as bv32) << 12
  }

  /** A present, writable, supervisor entry for frame f: `f * PAGE_SIZE | 3`. */
  function PresentEntry(f: bv20): (e: bv32)
    ensures e & PRESENT == PRESENT && FrameBits(e) == f
  {
    FrameAddress(f) | 3
  }

  /* ------------------------------------------- the recursive self-map */

  /**
   * MP4's pointer to the directory entry of a:
   * `(0xFFFFF000 | (a >> 20)) & 0xFFFFFFFC`.
   */
  function PdeAddress(a: bv32): (p: bv32)
    ensures p == 0xFFFF_F000 + 4 * (a >> 22)
  {
    (0xFFFF_F000 | (a >> 20)) & 0xFFFF_FFFC
  }

  /**
   * MP4's pointer to the table entry of a:
   * `(0xFFC00000 | ((a >> 10) & 0x003FF000) | ((a >> 10) & 0xFFC)) & 0xFFFFFFFC`.
   */
  function PteAddress(a: bv32): (p: bv32)
    ensures p == 0xFFC0_0000 + 4 * (a >> 12)
  {
    (0xFFC0_0000 | (((a >> 10) & 0x003F_F000) | ((a >> 10) & 0x0000_0FFC))) & 0xFFFF_FFFC
  }

  /** Through directory slot 1023 twice, the PDE pointer reaches word `a >> 22` of the directory. */
  lemma PdeAddressFields(a: bv32)
    ensures DirBits(PdeAddress(a)) == 1023 && TableBits(PdeAddress(a)) == 1023
    ensures WordBits(PdeAddress(a)) == DirBits(a)
  {
  }

  /** Through slot 1023 and then slot `a >> 22`, the PTE pointer reaches word `(a >> 12) & 0x3FF`. */
  lemma PteAddressFields(a: bv32)
    ensures DirBits(PteAddress(a)) == 1023 && TableBits(PteAddress(a)) == DirBits(a)
    ensures WordBits(PteAddress(a)) == TableBits(a)
  {
  }

  /** The translated address `e & 0xFFFFF000 | (va & 0xFFF)` lies in e's frame, at va's word. */
  lemma PhysicalFields(e: bv32, va: bv32)
    ensures FrameBits((e & 0xFFFF_F000) | (va & 0xFFF)) == FrameBits(e)
    ensures WordBits((e & 0xFFFF_F000) | (va & 0xFFF)) == WordBits(va)
  {
  }

  /** The PDE pointer, sent through a self entry of directory dir, lands on dir's word `a >> 22`. */
  lemma SelfMapWord(self: bv32, dir: bv32, a: bv32)
    requires FrameBits(self) == FrameBits(dir)
    ensures var pa := (self & 0xFFFF_F000) | (PdeAddress(a) & 0xFFF);
            FrameBits(pa) == FrameBits(dir) && WordBits(pa) == DirBits(a)
  {
    PdeAddressFields(a);
    PhysicalFields(self, PdeAddress(a));
  }

  /** The PTE pointer, sent through directory entry pde, lands on word `(a >> 12) & 0x3FF` of its table. */
  lemma SelfMapTableWord(pde: bv32, a: bv32)
    ensures var pa := (pde & 0xFFFF_F000) | (PteAddress(a) & 0xFFF);
            FrameBits(pa) == FrameBits(pde) && WordBits(pa) == TableBits(a)
  {
    PteAddressFields(a);
    PhysicalFields(pde, PteAddress(a));
  }

  /* ------------------------------------------- frame and word numbers */

  /** The frame number of an address, as an index into physical memory. */
  function FrameNo(a: bv32): (f: int)
    ensures 0 <= f < FRAME_LIMIT
  {
    FrameBits(a) as int
  }

  /** The word number of an address within its frame. */
  function WordNo(a: bv32): (w: int)
    ensures 0 <= w < ENTRIES
  {
    WordBits(a) as int
  }

  /** Directory index `a >> 22`, as an index into the directory frame. */
  function DirIndex(a: bv32): (d: int)
    ensures 0 <= d < ENTRIES
  {
    DirBits(a) as int
  }

  /** Table index `(a >> 12) & 0x3FF`, as an index into a table frame. */
  function TableIndex(a: bv32): (t: int)
    ensures 0 <= t < ENTRIES
  {
    TableBits(a) as int
  }

  /** Masking off an entry's flag bits, `e & 0xFFFFF000`, keeps its frame. */
  lemma FrameOfMasked(e: bv32)
    ensures FrameNo(e & 0xFFFF_F000) == FrameNo(e)
  {
    assert FrameBits(e & 0xFFFF_F000) == FrameBits(e);
  }

  /** A frame address with the present and writable bits set keeps its frame. */
  lemma TaggedEntry(a: bv32)
    requires a & 0xFFF == 0
    ensures (a | 3) & 0xFFF == 3 && (a | 3) & PRESENT == PRESENT
    ensures FrameBits(a | 3) == FrameBits(a) && FrameNo(a | 3) == FrameNo(a)
  {
  }

  /** The entry `frame * PAGE_SIZE | 3` for a frame number handed out by a pool. */
  function EntryFor(frame: int): (e: bv32)
    requires 0 <= frame < FRAME_LIMIT
    ensures e & PRESENT == PRESENT
  {
    PresentEntry(frame as bv20)
  }

  /* ------------------------------------------------------- the machine */

  /**
   * The two-level walk from the values the MMU reads: the paging bit, the
   * directory entry and the table entry for va.
   */
  function Walk(pagingOn: bool, dirEntry: bv32, tableEntry: bv32, va: bv32): (r: Outcome<bv32>)
    ensures !pagingOn ==> r == Ok(va)
    ensures pagingOn ==> (r.Ok? <==> dirEntry & PRESENT == PRESENT && tableEntry & PRESENT == PRESENT)
    ensures pagingOn && r.Ok? ==> FrameBits(r.value) == FrameBits(tableEntry) && r.value & 0xFFF == va & 0xFFF
  {
    if !pagingOn then Ok(va)
    else if dirEntry & PRESENT == 0 then Fail(NestedFault)
    else if tableEntry & PRESENT == 0 then Fail(NestedFault)
    else Ok((tableEntry & 0xFFFF_F000) | (va & 0xFFF))
  }

  /**
   * The processor state the kernel reads and writes: CR0, CR2 (the fault
   * address), CR3 (the directory's physical address) and physical memory,
   * `memory[f, w]` being word w of frame f.
   */
  class Machine {
    var cr0: bv32
    var cr2: bv32
    var cr3: bv32
    const memory: array2<bv32>

    ghost predicate Valid()
    {
      memory.Length0 == FRAME_LIMIT && memory.Length1 == ENTRIES
    }

    constructor (mem: array2<bv32>)
      requires mem.Length0 == FRAME_LIMIT && mem.Length1 == ENTRIES
      ensures Valid() && memory == mem && cr0 == 0 && cr2 == 0 && cr3 == 0
    {
      cr0, cr2, cr3 := 0, 0, 0;
      memory := mem;
    }

    /** Word w of frame f. */
    function Entry(f: int, w: int): bv32
      requires Valid() && 0 <= f < FRAME_LIMIT && 0 <= w < ENTRIES
      reads memory
    {
      memory[f, w]
    }

    /** The word at a word-aligned physical address. */
    function Word(pa: bv32): bv32
      requires Valid()
      reads memory
    {
      Entry(FrameNo(pa), WordNo(pa))
    }

    /** `write_cr3`: CR3 becomes v; the other registers and memory keep their values. */
    method WriteCr3(v: bv32)
      modifies this
      ensures cr3 == v && cr0 == old(cr0) && cr2 == old(cr2)
    {
      cr3 := v;
    }

    /** A store of one word: word w of frame f becomes v, every other word keeps its value. */
    method Store(f: int, w: int, v: bv32)
      requires Valid() && 0 <= f < FRAME_LIMIT && 0 <= w < ENTRIES
      modifies memory
      ensures Entry(f, w) == v
      ensures forall g, x :: 0 <= g < FRAME_LIMIT && 0 <= x < ENTRIES && (g != f || x != w) ==>
                Entry(g, x) == old(Entry(g, x))
    {
      memory[f, w] := v;
    }

    predicate PagingOn()
      reads this
    {
      cr0 & CR0_PG != 0
    }

    /** The directory entry the MMU consults for va. */
    function DirEntry(va: bv32): bv32
      requires Valid()
      reads this, memory
    {
      Entry(FrameNo(cr3), DirIndex(va))
    }

    /** The table entry the MMU consults for va, if its directory entry is present. */
    function TableEntry(va: bv32): bv32
      requires Valid()
      reads this, memory
    {
      Entry(FrameNo(DirEntry(va)), TableIndex(va))
    }

    /**
     * The MMU: with paging off an address is physical; with paging on, the
     * directory at CR3 and then the table it names must hold present
     * entries, or the access faults.
     */
    function Translate(va: bv32): (r: Outcome<bv32>)
      requires Valid()
      reads this, memory
      ensures !PagingOn() ==> r == Ok(va)
      ensures PagingOn() ==>
                (r.Ok? <==> DirEntry(va) & PRESENT == PRESENT && TableEntry(va) & PRESENT == PRESENT)
      ensures PagingOn() && r.Ok? ==>
                FrameBits(r.value) == FrameBits(TableEntry(va)) && r.value & 0xFFF == va & 0xFFF
    {
      Walk(PagingOn(), DirEntry(va), TableEntry(va), va)
    }

    /** Slot 1023 of the directory at physical address dir is a present entry naming dir's frame. */
    predicate SelfEntry(dir: bv32)
      requires Valid()
      reads this, memory
    {
      Entry(FrameNo(dir), 1023) & PRESENT == PRESENT && FrameBits(Entry(FrameNo(dir), 1023)) == FrameBits(dir)
    }

    /** Paging is on and slot 1023 of the loaded directory points back at the directory. */
    predicate SelfMapped()
      requires Valid()
      reads this, memory
    {
      PagingOn() && SelfEntry(cr3)
    }

    /** Under the self-map, the PDE pointer goes through directory slot 1023 twice. */
    lemma PdeTranslation(a: bv32)
      requires Valid() && SelfMapped()
      ensures var self := Entry(FrameNo(cr3), 1023);
              Translate(PdeAddress(a)) == Ok((self & 0xFFFF_F000) | (PdeAddress(a) & 0xFFF))
    {
      PdeAddressFields(a);
      SelfLookup(PdeAddress(a));
    }

    /** Under the self-map, an address whose directory and table indices are both 1023 goes through slot 1023 twice. */
    lemma SelfLookup(p: bv32)
      requires Valid() && SelfMapped() && DirBits(p) == 1023 && TableBits(p) == 1023
      ensures Translate(p) == Ok((Entry(FrameNo(cr3), 1023) & 0xFFFF_F000) | (p & 0xFFF))
    {
      var self := Entry(FrameNo(cr3), 1023);
      assert DirIndex(p) == 1023 && TableIndex(p) == 1023;
      assert FrameNo(self) == FrameNo(cr3);
    }

    /** Under the self-map, MP4's PDE pointer reaches entry `a >> 22` of the directory. */
    lemma SelfMapDirectory(a: bv32)
      requires Valid() && SelfMapped()
      ensures Translate(PdeAddress(a)).Ok?
      ensures var pa := Translate(PdeAddress(a)).value;
              FrameNo(pa) == FrameNo(cr3) && WordNo(pa) == DirIndex(a) && Word(pa) == DirEntry(a)
    {
      var self := Entry(FrameNo(cr3), 1023);
      PdeTranslation(a);
      SelfMapWord(self, cr3, a);
    }

    /**
     * Under the self-map, MP4's PTE pointer reaches entry `(a >> 12) & 0x3FF`
     * of the table that directory entry `a >> 22` names, if that entry is
     * present; otherwise the access itself faults.
     */
    lemma SelfMapTable(a: bv32)
      requires Valid() && SelfMapped()
      ensures DirEntry(a) & PRESENT == 0 <==> Translate(PteAddress(a)).Fail?
      ensures DirEntry(a) & PRESENT == PRESENT ==>
                var pa := Translate(PteAddress(a)).value;
                FrameNo(pa) == FrameNo(DirEntry(a)) && WordNo(pa) == TableIndex(a) && Word(pa) == TableEntry(a)
    {
      var p := PteAddress(a);
      PteAddressFields(a);
      assert DirIndex(p) == 1023 && TableIndex(p) == DirIndex(a);
      assert DirEntry(p) == Entry(FrameNo(cr3), 1023) && TableEntry(p) == DirEntry(a);
      SelfMapTableWord(DirEntry(a), a);
    }
  }
}
