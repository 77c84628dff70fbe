/**
 * Machine words and the ways an operation of the memory manager can stop.
 */
module Common {

  const TWO32: int := 0x1_0000_0000

  /** An `unsigned int` / `unsigned long` of the 32-bit kernel. */
  type u32 = x: int | 0 <= x < TWO32

  /** Frames of the 32-bit physical address space (4 GB in 4 KB frames). */
  const FRAME_LIMIT: int := 0x10_0000

  /** Unsigned 32-bit wrap-around of an integer result. */
  function Wrap32(x: int): (r: u32)
    ensures 0 <= x < TWO32 ==> r == x
    ensures 0 <= x + TWO32 < TWO32 ==> r == x + TWO32
  {
    x % TWO32
  }

  /**
   * Why an operation stopped. The first six are the kernel's own fatal
   * `assert` halts; the rest mark the points where the C code would
   * dereference null, read or write outside the object it indexes, or fault
   * again inside the fault machinery; there the model stops and reports
   * instead of inventing a meaning.
   */
  datatype Failure =
    | PoolTooLarge          // constructor: assert(_n_frames <= FRAME_SIZE * 8), or * 4 in MP2
    | PoolNotMultipleOf4    // constructor: assert((nframes % 4) == 0)
    | NoFreeFrames          // get_frames: assert(nFreeFrames > 0)
    | NotInAnyPool          // release_frames: frame past the first pool and no second pool
    | NotHeadFrame          // release_frames: the frame's field fails the head check
    | IllegitimateAddress   // handle_fault: no registered region pool accepts the address
    | NoPoolList            // release_frames before any pool exists: frame_pool_list is null
    | BitmapOverrun         // an index at or past nframes/4 into the bitmap
    | RegionListOverrun     // region_list[512]
    | PoolListOverrun       // vm_pool_list[512]
    | NestedFault           // an entry access that would itself page-fault
    | CounterOverflow       // the signed loop counter of VMPool::release would overflow

  datatype Outcome<+T> = Ok(value: T) | Fail(failure: Failure)

  datatype Option<+T> = None | Some(value: T)
}
