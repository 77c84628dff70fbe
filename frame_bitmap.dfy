/**
 * The packed frame-state bitmap shared by both revisions of ContFramePool.
 *
 * Every frame of a pool owns a 2-bit field; four fields share a byte, the
 * frame at position 0 of a byte in the two most significant bits.  The
 * encodings are 11 FREE, 10 HEAD-OF-SEQUENCE and 00 ALLOCATED; 01 is never
 * written.  The byte-level masks below are the source's own
 * (`0xC0 >> p*2`, `0x80 >> p*2`, `0xBF >> p*2`), and `States` abstracts a
 * bitmap to one `State` per frame, indexed relative to the pool's base.
 *
 * The loops of get_frames, mark_inaccessible and release_frames are the same
 * text in both revisions; they are written once here, as methods on the
 * bitmap array, each proved against a function on `States`.
 */
module FrameBitmap {
  import opened Common

  datatype State = Allocated | Unused | Head | Free

  /* ---------------------------------------------------------------- bytes */

  /** Both bits of field p: the source's `0xC0 >> (p*2)` (see `MasksAreShifts`). */
  function FieldMask(p: nat): bv8
    requires p < 4
  {
    if p == 0 then 0xC0 else if p == 1 then 0x30 else if p == 2 then 0x0C else 0x03
  }

  /** The HEAD pattern of field p: `0x80 >> (p*2)`. */
  function HeadPattern(p: nat): bv8
    requires p < 4
  {
    if p == 0 then 0x80 else if p == 1 then 0x20 else if p == 2 then 0x08 else 0x02
  }

  /** The mask ORed in by a HEAD write: `0xBF >> (p*2)`. */
  function HeadFill(p: nat): bv8
    requires p < 4
  {
    if p == 0 then 0xBF else if p == 1 then 0x2F else if p == 2 then 0x0B else 0x02
  }

  /** The three tables are the source's shifted constants. */
  lemma MasksAreShifts(p: nat)
    requires p < 4
    ensures FieldMask(p) == (0xC0 as bv8) >> (p * 2)
    ensures HeadPattern(p) == (0x80 as bv8) >> (p * 2)
    ensures HeadFill(p) == (0xBF as bv8) >> (p * 2)
  {
    if p == 0 {
    } else if p == 1 {
    } else if p == 2 {
    } else {
    }
  }

  /** Decodes field p of a byte with the source's three tests. */
  function FieldState(b: bv8, p: nat): State
    requires p < 4
  {
    var f := b & FieldMask(p);
    if f == FieldMask(p) then Free
    else if f == HeadPattern(p) then Head
    else if f == 0 then Allocated
    else Unused
  }

  /** HEAD write: clear field p, then OR in `0xBF >> (p*2)`. */
  function SetHeadByte(b: bv8, p: nat): bv8
    requires p < 4
  {
    (b & !FieldMask(p)) | HeadFill(p)
  }

  /** ALLOCATED write: `b & ~(0xC0 >> (p*2))`. */
  function SetAllocatedByte(b: bv8, p: nat): bv8
    requires p < 4
  {
    b & !FieldMask(p)
  }

  /** FREE write: `b | (0xC0 >> (p*2))`. */
  function SetFreeByte(b: bv8, p: nat): bv8
    requires p < 4
  {
    b | FieldMask(p)
  }

  /** The HEAD write makes field p HEAD and every later field of the byte FREE. */
  lemma SetHeadByteFields(b: bv8, p: nat, q: nat)
    requires p < 4 && q < 4
    ensures FieldState(SetHeadByte(b, p), q) ==
            if q < p then FieldState(b, q) else if q == p then Head else Free
  {
  }

  lemma SetAllocatedByteFields(b: bv8, p: nat, q: nat)
    requires p < 4 && q < 4
    ensures FieldState(SetAllocatedByte(b, p), q) == if q == p then Allocated else FieldState(b, q)
  {
  }

  lemma SetFreeByteFields(b: bv8, p: nat, q: nat)
    requires p < 4 && q < 4
    ensures FieldState(SetFreeByte(b, p), q) == if q == p then Free else FieldState(b, q)
  {
  }

  /** The MP4 head check `(b & (0x80 >> p*2)) == (0x80 >> p*2)` tests the high bit only. */
  lemma HighBitTest(b: bv8, p: nat)
    requires p < 4
    ensures (b & HeadPattern(p) == HeadPattern(p)) <==>
            (FieldState(b, p) == Head || FieldState(b, p) == Free)
  {
  }

  /** The scan's running mask: `mask >> 2` moves to the next field. */
  lemma NextFieldMask(p: nat)
    requires p < 3
    ensures FieldMask(p) >> 2 == FieldMask(p + 1)
  {
  }

  /* ---------------------------------------------------------- abstraction */

  /** One state per frame of the pool, in frame order. */
  function States(bm: seq<bv8>): seq<State>
  {
    seq(4 * |bm|, t requires 0 <= t < 4 * |bm| => FieldState(bm[t / 4], t % 4))
  }

  /** Writing one byte changes exactly the four fields it holds. */
  lemma StatesAfterWrite(bm: seq<bv8>, i: nat, b: bv8)
    requires i < |bm|
    ensures |States(bm[i := b])| == |States(bm)|
    ensures forall t :: 0 <= t < |States(bm)| ==>
              States(bm[i := b])[t] == if t / 4 == i then FieldState(b, t % 4) else States(bm)[t]
  {
  }

  /** Last field of the byte that holds field k. */
  function ByteEnd(k: int): int
  {
    k - k % 4 + 3
  }

  /** Field-level effect of one HEAD write at field k. */
  function PutHead(s: seq<State>, k: nat): seq<State>
    requires k < |s|
  {
    seq(|s|, t requires 0 <= t < |s| =>
      if t == k then Head else if k < t <= ByteEnd(k) then Free else s[t])
  }

  lemma WriteHead(bm: seq<bv8>, k: nat)
    requires k < 4 * |bm|
    ensures States(bm[k / 4 := SetHeadByte(bm[k / 4], k % 4)]) == PutHead(States(bm), k)
  {
    var b := SetHeadByte(bm[k / 4], k % 4);
    StatesAfterWrite(bm, k / 4, b);
    var s, s' := States(bm), States(bm[k / 4 := b]);
    assert ByteEnd(k) == 4 * (k / 4) + 3;
    forall t | 0 <= t < 4 * |bm|
      ensures s'[t] == PutHead(s, k)[t]
    {
      if t / 4 == k / 4 {
        assert t == 4 * (k / 4) + t % 4 && k == 4 * (k / 4) + k % 4;
        SetHeadByteFields(bm[k / 4], k % 4, t % 4);
      }
    }
  }

  lemma WriteAllocated(bm: seq<bv8>, k: nat)
    requires k < 4 * |bm|
    ensures States(bm[k / 4 := SetAllocatedByte(bm[k / 4], k % 4)]) == States(bm)[k := Allocated]
  {
    var b := SetAllocatedByte(bm[k / 4], k % 4);
    StatesAfterWrite(bm, k / 4, b);
    var s, s' := States(bm), States(bm[k / 4 := b]);
    forall t | 0 <= t < 4 * |bm|
      ensures s'[t] == s[k := Allocated][t]
    {
      if t / 4 == k / 4 {
        SetAllocatedByteFields(bm[k / 4], k % 4, t % 4);
      }
    }
  }

  lemma WriteFree(bm: seq<bv8>, k: nat)
    requires k < 4 * |bm|
    ensures States(bm[k / 4 := SetFreeByte(bm[k / 4], k % 4)]) == States(bm)[k := Free]
  {
    var b := SetFreeByte(bm[k / 4], k % 4);
    StatesAfterWrite(bm, k / 4, b);
    var s, s' := States(bm), States(bm[k / 4 := b]);
    forall t | 0 <= t < 4 * |bm|
      ensures s'[t] == s[k := Free][t]
    {
      if t / 4 == k / 4 {
        SetFreeByteFields(bm[k / 4], k % 4, t % 4);
      }
    }
  }

  /** With an aligned base, the byte index `(k-base)/4` and the shift `k%4` agree. */
  lemma AlignedField(k: int, base: int)
    requires base % 4 == 0 && base <= k
    ensures (k - base) % 4 == k % 4
  {
    var m := base / 4;
    assert base == 4 * m;
  }
}
