/**
 * ContFramePool as submitted for MP2 (MP2/submissions/cont_frame_pool.C).
 * The text is that of the MP4 revision except for two lines: the pool-size
 * bound is `FRAME_SIZE * 4`, and release_frames requires the first frame's
 * field to be exactly HEAD.
 *
 * A pool owns the frames base_frame_no .. base_frame_no+nframes-1 and keeps
 * their states in a bitmap of nframes/4 bytes; `nFreeFrames` is the
 * counter get_frames tests and decrements.  The static `frame_pool_list`
 * is a `PoolList` object handed to the constructor and to release_frames.
 * The bitmap's physical placement (inside the pool's first frame or in the
 * info frame) is not reproduced: each pool's bitmap is its own array.
 */
module MP2FramePool {
  import opened Common
  import opened FrameBitmap
  import opened FrameOps

  const FRAME_SIZE: int := 4096

  /** The constructor's bound `FRAME_SIZE * 4` on the pool size. */
  const MAX_POOL_FRAMES: int := FRAME_SIZE * 4

  /** The static `frame_pool_list`. */
  class PoolList {
    var head: ContFramePool?

    constructor ()
      ensures head == null
    {
      head := null;
    }

    /**
     * Every pool the registry can reach is well formed, and the head's
     * `next` is a second pool with a bitmap of its own.
     */
    ghost predicate Valid()
      reads this, head
    {
      head != null ==>
        head.Valid() &&
        (head.next != null ==> head.next.Valid() && head.next != head && head.next.bitmap != head.bitmap)
    }

    /** The registry links as it did: the head and its `next` are the same pools. */
    twostate predicate Linked()
      reads this, head
    {
      old(head) == head && (head != null ==> old(head.next) == head.next)
    }

    /** Every reachable pool's bitmap except `owner`'s is as it was. */
    twostate predicate Kept(owner: ContFramePool?)
      requires Linked()
      reads this, head, if head != null then {head.bitmap} else {}
      reads if head != null && head.next != null then {head.next.bitmap} else {}
    {
      (head != null && head != owner ==> unchanged(head.bitmap)) &&
      (head != null && head.next != null && head.next != owner ==> unchanged(head.next.bitmap))
    }

    /**
     * release_frames' effect on the bitmaps: the owning pool's states are
     * those ReleaseAt gives at the frame's offset, and no other bitmap
     * changes (with no owner, none changes).
     */
    twostate predicate FramesReleased(frame: int)
      requires Linked()
      reads this, head, if head != null then {head.bitmap} else {}
      reads if head != null && head.next != null then {head.next.bitmap} else {}
    {
      var owner := old(Owner(frame));
      Kept(if owner.Ok? then owner.value else null) &&
      (owner.Ok? ==>
         owner.value.Fields() ==
         ReleaseAt(old(owner.value.Fields()), frame - owner.value.baseFrameNo, true).states)
    }

    /** The pools release_frames can reach: the head and the head's `next`. */
    ghost function Pools(): set<ContFramePool>
      reads this, head
    {
      if head == null then {}
      else if head.next == null then {head}
      else {head, head.next}
    }

    /**
     * release_frames' choice of pool: the head, unless the frame lies at or
     * past the head's end; then the head's `next`, which must exist.
     */
    function Owner(frame: int): (r: Outcome<ContFramePool>)
      reads this, head
      ensures head != null && frame < head.baseFrameNo + head.nframes ==> r == Ok(head)
      ensures r.Ok? ==> r.value in Pools()
      ensures r.Fail? <==> head == null || (head.baseFrameNo + head.nframes <= frame && head.next == null)
    {
      if head == null then Fail(NoPoolList)
      else if head.baseFrameNo + head.nframes <= frame then
        (if head.next == null then Fail(NotInAnyPool) else Ok(head.next))
      else Ok(head)
    }
  }

  class ContFramePool {
    const baseFrameNo: int
    const nframes: int
    const infoFrameNo: int
    const bitmap: array<bv8>
    var nFreeFrames: u32
    var next: ContFramePool?
    var prev: ContFramePool?

    /** Aligned, inside the physical frame range, and with nframes/4 bitmap bytes. */
    ghost predicate Valid()
    {
      0 <= baseFrameNo && baseFrameNo % 4 == 0 && 0 <= nframes && nframes % 4 == 0 &&
      baseFrameNo + nframes <= FRAME_LIMIT && bitmap.Length * 4 == nframes
    }

    /** The state of each frame of the pool, relative to baseFrameNo. */
    ghost function Fields(): seq<State>
      reads bitmap
    {
      States(bitmap[..])
    }

    /** The part of the C constructor past its two size assertions. */
    constructor Init(base: u32, n: u32, info: u32)
      requires base % 4 == 0 && base + n <= FRAME_LIMIT
      requires n <= MAX_POOL_FRAMES && n % 4 == 0 && (info == 0 ==> n > 0)
      ensures Valid()
      ensures baseFrameNo == base && nframes == n && infoFrameNo == info
      ensures Fields() == InitialStates(n, info == 0)
      ensures nFreeFrames == if info == 0 then n - 1 else n
      ensures next == null && prev == null
      ensures fresh(bitmap)
    {
      baseFrameNo := base;
      nframes := n;
      nFreeFrames := n;
      infoFrameNo := info;
      bitmap := new bv8[n / 4];
      next := null;
      prev := null;
      new;
      InitBitmap(bitmap, info == 0);
      if info == 0 {
        nFreeFrames := nFreeFrames - 1;
      }
    }

    /**
     * The C constructor (lines 133-178): the two size assertions, the
     * bitmap initialisation, and the registry update, which links the new
     * pool as the head when there is none and otherwise OVERWRITES the
     * head's `next`.  `_n_info_frames` is not used by the source.
     */
    static method Create(list: PoolList, base: u32, n: u32, info: u32, nInfo: u32)
      returns (r: Outcome<ContFramePool>)
      requires list.Valid() && base % 4 == 0 && base + n <= FRAME_LIMIT
      modifies list, list.head
      ensures n > MAX_POOL_FRAMES ==> r == Fail(PoolTooLarge)
      ensures n <= MAX_POOL_FRAMES && n % 4 != 0 ==> r == Fail(PoolNotMultipleOf4)
      ensures n <= MAX_POOL_FRAMES && n % 4 == 0 && info == 0 && n == 0 ==> r == Fail(BitmapOverrun)
      ensures r.Fail? ==> list.head == old(list.head) &&
                          (list.head != null ==> list.head.next == old(list.head.next))
      ensures r.Ok? <==> n <= MAX_POOL_FRAMES && n % 4 == 0 && (info == 0 ==> n > 0)
      ensures r.Ok? ==>
                var p := r.value;
                fresh(p) && fresh(p.bitmap) && p.Valid() && list.Valid() &&
                p.baseFrameNo == base && p.nframes == n && p.infoFrameNo == info &&
                p.Fields() == InitialStates(n, info == 0) &&
                p.nFreeFrames == (if info == 0 then n - 1 else n) && p.next == null &&
                (old(list.head) == null ==> list.head == p && p.prev == p) &&
                (old(list.head) != null ==> list.head == old(list.head) && list.head.next == p &&
                                            p.prev == list.head) &&
                list.Pools() == (if old(list.head) == null then {p} else {old(list.head), p})
    {
      if n > MAX_POOL_FRAMES {
        return Fail(PoolTooLarge);
      }
      if n % 4 != 0 {
        return Fail(PoolNotMultipleOf4);
      }
      if info == 0 && n == 0 {
        // `bitmap[0] = 0x3F` on a bitmap of nframes/4 == 0 bytes
        return Fail(BitmapOverrun);
      }
      var p := new ContFramePool.Init(base, n, info);
      if list.head == null {
        list.head := p;
      } else {
        list.head.next := p;
      }
      p.prev := list.head;
      r := Ok(p);
    }

    /**
     * get_frames (lines 180-248): abort on an empty counter; otherwise scan,
     * mark, decrement the counter by n in 32-bit arithmetic and return the
     * first frame.  A first frame outside the pool would be written outside
     * the bitmap; then nothing is written and BitmapOverrun is reported.
     */
    method GetFrames(n: u32) returns (r: Outcome<u32>)
      requires Valid()
      modifies this, bitmap
      ensures next == old(next) && prev == old(prev)
      ensures old(nFreeFrames) == 0 ==>
                r == Fail(NoFreeFrames) && bitmap[..] == old(bitmap[..]) && nFreeFrames == old(nFreeFrames)
      ensures old(nFreeFrames) != 0 ==>
                match Allocate(old(bitmap[..]), n, baseFrameNo)
                case Ok(al) => r == Ok(al.first) && Fields() == al.states &&
                               nFreeFrames == Wrap32(old(nFreeFrames) - n)
                case Fail(f) => r == Fail(f) && bitmap[..] == old(bitmap[..]) &&
                                nFreeFrames == old(nFreeFrames)
    {
      if nFreeFrames == 0 {
        return Fail(NoFreeFrames);
      }
      r := TakeRun(bitmap, n, baseFrameNo);
      if r.Ok? {
        nFreeFrames := Wrap32(nFreeFrames - n);
      }
    }

    /**
     * mark_inaccessible (lines 250-266): HEAD into every frame of
     * b .. b+n-1 (the last frame computed in 32 bits).  The loop is empty when
     * that last frame precedes b; a first frame below the pool, or a range
     * running past its end, reaches outside the bitmap, and the model stops
     * there with BitmapOverrun.  The counter is never touched.
     */
    method MarkInaccessible(b: u32, n: u32) returns (r: Outcome<()>)
      requires Valid()
      modifies bitmap
      ensures var lo, hi := b - baseFrameNo, Wrap32(b + n - 1) - baseFrameNo;
              (hi < lo ==> r == Ok(()) && bitmap[..] == old(bitmap[..])) &&
              (lo <= hi && lo < 0 ==> r == Fail(BitmapOverrun) && bitmap[..] == old(bitmap[..])) &&
              (0 <= lo <= hi ==>
                 Fields() == MarkedRange(old(Fields()), lo, if hi < nframes then hi else nframes - 1) &&
                 r == if hi < nframes then Ok(()) else Fail(BitmapOverrun))
    {
      var lo, hi := b - baseFrameNo, Wrap32(b + n - 1) - baseFrameNo;
      if hi < lo {
        return Ok(());
      }
      if lo < 0 {
        return Fail(BitmapOverrun);
      }
      if hi < nframes {
        MarkRange(bitmap, lo, hi);
        r := Ok(());
      } else {
        MarkRange(bitmap, lo, nframes - 1);
        r := Fail(BitmapOverrun);
      }
    }

    /**
     * release_frames (lines 268-347): pick the owning pool, check that the
     * frame's field is exactly HEAD (`(b & mask) ^ (0x80 >> p*2) == 0`), free
     * it and the ALLOCATED run after it.  The freed count is added to a
     * local that shadows the field, so no pool's counter changes.  A frame
     * below the chosen pool or past its end indexes outside the bitmap.
     */
    static method ReleaseFrames(list: PoolList, frame: u32) returns (r: Outcome<()>)
      requires list.Valid()
      modifies if list.head != null then {list.head.bitmap} else {}
      modifies if list.head != null && list.head.next != null then {list.head.next.bitmap} else {}
      ensures var owner := old(list.Owner(frame));
              (owner.Fail? ==> r == Fail(owner.failure)) &&
              (owner.Fail? && list.head != null ==> unchanged(list.head.bitmap)) &&
              (owner.Ok? ==>
                 var p := owner.value;
                 var e := ReleaseAt(old(p.Fields()), frame - p.baseFrameNo, true);
                 r == e.outcome && p.Fields() == e.states && p.nFreeFrames == old(p.nFreeFrames))
      ensures list.FramesReleased(frame)
    {
      var owner := list.Owner(frame);
      if owner.Fail? {
        return Fail(owner.failure);
      }
      var p := owner.value;
      ghost var s := p.Fields();
      r := p.ReleaseHere(frame);
      assert p.Fields() == ReleaseAt(s, frame - p.baseFrameNo, true).states;
    }

    /** release_frames from the point where the owning pool is this one. */
    method ReleaseHere(frame: u32) returns (r: Outcome<()>)
      requires Valid()
      modifies bitmap
      ensures var e := ReleaseAt(old(Fields()), frame - baseFrameNo, true);
              r == e.outcome && Fields() == e.states
    {
      r := ReleaseRun(bitmap, frame - baseFrameNo, true);
    }

    /** needed_info_frames (lines 349-352). */
    static function NeededInfoFrames(n: u32): (r: nat)
      ensures r * (16 * 1024) >= n
      ensures r == 0 || (r - 1) * (16 * 1024) < n
    {
      FrameOps.NeededInfoFrames(n)
    }
  }
}
