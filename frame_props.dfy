/**
 * What the bitmap loops of ContFramePool do to a pool, stated over the
 * frame states: when get_frames finds a run and when it does not, the
 * frames it may hand out twice, how many frames release_frames returns,
 * and when an allocation followed by a release restores the pool.
 */
module FrameProps {
  import opened Common
  import opened FrameBitmap
  import opened FrameOps

  /* ------------------------------------------------------- counting */

  lemma {:induction false} CountFreeUpdate(s: seq<State>, t: nat, x: State)
    requires t < |s|
    ensures CountFree(s[t := x]) ==
            CountFree(s) - (if s[t] == Free then 1 else 0) + (if x == Free then 1 else 0)
    decreases |s|
  {
    if t == 0 {
      assert s[t := x][1..] == s[1..];
    } else {
      assert s[t := x][1..] == s[1..][t - 1 := x];
      CountFreeUpdate(s[1..], t - 1, x);
    }
  }

  lemma {:induction false} AllFreeCount(n: nat)
    ensures CountFree(InitialStates(n, false)) == n
  {
    if n > 0 {
      assert InitialStates(n, false)[1..] == InitialStates(n - 1, false);
      AllFreeCount(n - 1);
    }
  }

  /**
   * The constructor's free count matches the initial bitmap: all frames FREE,
   * less frame 0 when the pool keeps its bitmap there.
   */
  lemma InitialCount(n: nat, selfHosted: bool)
    requires n > 0
    ensures CountFree(InitialStates(n, selfHosted)) == if selfHosted then n - 1 else n
  {
    AllFreeCount(n);
    if selfHosted {
      assert InitialStates(n, true) == InitialStates(n, false)[0 := Allocated];
      CountFreeUpdate(InitialStates(n, false), 0, Allocated);
    }
  }

  /* ------------------------------------------------------ allocation */

  /** For a single frame the quirks of the scan do not matter: it takes the first FREE frame. */
  lemma AllocateOne(bm: seq<bv8>, base: nat)
    requires base % 4 == 0 && base + 4 * |bm| <= TWO32
    ensures var f := FirstFree(States(bm), 0);
            Allocate(bm, 1, base) ==
              if f < 4 * |bm| then Ok(Allocation(base + f, PutHead(States(bm), f)))
              else if base == 0 && |bm| > 0 then Ok(Allocation(0, PutHead(States(bm), 0)))
              else Fail(BitmapOverrun)
  {
    var s := States(bm);
    var f := FirstFree(s, 0);
    ScanOne(bm, base);
    if f < 4 * |bm| {
      assert MarkedRun(s, f, f) == PutHead(s, f);
    } else if base == 0 && |bm| > 0 {
      assert MarkedRun(s, 0, 0) == PutHead(s, 0);
    }
  }

  /**
   * Completeness: whenever the pool holds n >= 1 contiguous FREE frames the
   * allocation succeeds; its run ends on a FREE frame inside the pool, and
   * the returned frame becomes HEAD with the n-1 frames after it ALLOCATED.
   */
  lemma AllocateFindsRun(bm: seq<bv8>, n: nat, base: nat, a: nat)
    requires base % 4 == 0 && base + 4 * |bm| <= TWO32 && n >= 1
    requires FreeRunAt(States(bm), a, n)
    ensures Allocate(bm, n, base).Ok?
    ensures var al := Allocate(bm, n, base).value;
            var q := al.first - base;
            q + n <= 4 * |bm| && States(bm)[q + n - 1] == Free &&
            al.states[q] == Head && forall t :: q < t < q + n ==> al.states[t] == Allocated
  {
    ScanFindsRun(bm, n, base, a);
    ScanFoundInPool(bm, n, base);
  }

  /** MarkedRun over frames that were FREE, with FREE spill fields, is a chain of single updates. */
  lemma {:induction false} MarkedCount(s: seq<State>, q: nat, l: nat)
    requires q <= l < |s|
    requires forall t :: q <= t <= l ==> s[t] == Free
    requires forall t :: l < t <= ByteEnd(q) && t < |s| ==> s[t] == Free
    ensures CountFree(MarkedRun(s, q, l)) == CountFree(s) - (l - q + 1)
    decreases l - q
  {
    if l == q {
      assert MarkedRun(s, q, q) == s[q := Head];
      CountFreeUpdate(s, q, Head);
    } else {
      MarkedCount(s, q, l - 1);
      assert MarkedRun(s, q, l) == MarkedRun(s, q, l - 1)[l := Allocated];
      CountFreeUpdate(MarkedRun(s, q, l - 1), l, Allocated);
    }
  }

  /**
   * When the frames handed out really were FREE (and so were the later
   * fields of the HEAD frame's byte), the pool loses exactly n FREE frames,
   * matching get_frames' `nFreeFrames -= n`.
   */
  lemma AllocateCount(bm: seq<bv8>, n: nat, base: nat, al: Allocation)
    requires base + 4 * |bm| <= TWO32
    requires n >= 1 && Allocate(bm, n, base) == Ok(al)
    requires FreeRunAt(States(bm), al.first - base, n)
    requires forall t :: al.first - base + n <= t <= ByteEnd(al.first - base) && t < |States(bm)| ==> States(bm)[t] == Free
    requires ScanAll(bm, n, base).count == n
    ensures CountFree(al.states) == CountFree(States(bm)) - n
  {
    AllocatedRun(bm, n, base, al);
    RunCount(States(bm), al.first - base, n);
  }

  /** When the scan counts n frames, the allocation marks exactly the n frames ending at its last frame. */
  lemma AllocatedRun(bm: seq<bv8>, n: nat, base: nat, al: Allocation)
    requires base + 4 * |bm| <= TWO32
    requires n >= 1 && Allocate(bm, n, base) == Ok(al)
    requires ScanAll(bm, n, base).count == n
    ensures al.first == ScanAll(bm, n, base).last - n + 1
    ensures base <= al.first && al.first - base + n <= 4 * |bm|
    ensures al.states == MarkedRun(States(bm), al.first - base, al.first - base + n - 1)
  {
    var c := ScanAll(bm, n, base);
    ScanFoundInPool(bm, n, base);
    var first := Wrap32(c.last - n + 1);
    assert first == c.last - n + 1;
    AllocateFrom(bm, n, base, c, first);
  }

  /** Marking a FREE run of n frames at q, whose byte is FREE after it, takes n FREE frames. */
  lemma RunCount(s: seq<State>, q: nat, n: nat)
    requires n >= 1 && FreeRunAt(s, q, n)
    requires forall t :: q + n <= t <= ByteEnd(q) && t < |s| ==> s[t] == Free
    ensures CountFree(MarkedRun(s, q, q + n - 1)) == CountFree(s) - n
  {
    MarkedCount(s, q, q + n - 1);
  }

  /* ---------------------------------------------------------- release */

  lemma {:induction false} FreedCount(s: seq<State>, q: nat, e: nat)
    requires q < e <= |s|
    requires forall t :: q < t < e ==> s[t] != Free
    ensures CountFree(FreedUpTo(s, q, e)) == CountFree(s) + (e - q) - (if s[q] == Free then 1 else 0)
    decreases e - q
  {
    if e == q + 1 {
      assert FreedUpTo(s, q, e) == s[q := Free];
      CountFreeUpdate(s, q, Free);
    } else {
      FreedCount(s, q, e - 1);
      assert FreedUpTo(s, q, e) == FreedUpTo(s, q, e - 1)[e - 1 := Free];
      CountFreeUpdate(FreedUpTo(s, q, e - 1), e - 1, Free);
    }
  }

  /**
   * release_frames makes exactly `frame_free_count` frames FREE that were
   * not, less one when the target frame was itself FREE (which the MP4 head
   * check lets through).  The owning pool's counter is not told.
   */
  lemma ReleaseCount(s: seq<State>, q: nat)
    requires q < |s|
    ensures CountFree(Released(s, q)) ==
            CountFree(s) + (RunEnd(s, q + 1) - q) - (if s[q] == Free then 1 else 0)
  {
    FreedCount(s, q, RunEnd(s, q + 1));
  }

  /**
   * Round trip: a run of n FREE frames at q, not followed by an ALLOCATED
   * frame and with FREE spill fields, is restored exactly by releasing its
   * HEAD; the release reads past the bitmap exactly when the run has two or
   * more frames and ends at the pool's last frame.
   */
  lemma ReleaseUndoesAllocate(s: seq<State>, q: nat, n: nat)
    requires n >= 1 && FreeRunAt(s, q, n)
    requires q + n == |s| || s[q + n] != Allocated
    requires forall t :: q + n <= t <= ByteEnd(q) && t < |s| ==> s[t] == Free
    ensures Released(MarkedRun(s, q, q + n - 1), q) == s
    ensures ReleaseOverruns(MarkedRun(s, q, q + n - 1), q) <==> n >= 2 && q + n == |s|
  {
    var m := MarkedRun(s, q, q + n - 1);
    RunEndUnique(m, q + 1, q + n);
    assert Released(m, q) == s;
  }

  /* ---------------------------------------- where the scan goes wrong */

  /**
   * The scan does not reset on an ALLOCATED frame: in [FREE, ALLOCATED,
   * FREE, FREE] a request for two frames returns frame 1, which is already
   * allocated.
   */
  lemma AllocateCrossesAllocated()
    ensures States([0xCF]) == [Free, Allocated, Free, Free]
    ensures Allocate([0xCF], 2, 0) == Ok(Allocation(1, [Free, Head, Allocated, Free]))
  {
    var bm: seq<bv8> := [0xCF];
    var s := States(bm);
    assert s[0] == Free && s[1] == Allocated && s[2] == Free && s[3] == Free;
    assert s == [Free, Allocated, Free, Free];
    assert Scan(s, 2, 0, 0, 3, Cursor(2, 2)) == Cursor(2, 2);
    assert Scan(s, 2, 0, 0, 2, Cursor(1, 0)) == Cursor(2, 2);
    assert Scan(s, 2, 0, 0, 1, Cursor(1, 0)) == Cursor(2, 2);
    assert ScanAll(bm, 2, 0) == Cursor(2, 2);
    AllocateFrom(bm, 2, 0, Cursor(2, 2), 1);
    assert MarkedRun(s, 1, 2) == [Free, Head, Allocated, Free];
  }

  /**
   * A HEAD frame resets the count only when it sits at position
   * `last_frame_no % 4`: in [FREE, HEAD, FREE, FREE] a request for two
   * frames returns the HEAD frame 1.
   */
  lemma AllocateReusesHead()
    ensures States([0xEF]) == [Free, Head, Free, Free]
    ensures Allocate([0xEF], 2, 0) == Ok(Allocation(1, [Free, Head, Allocated, Free]))
  {
    var bm: seq<bv8> := [0xEF];
    var s := States(bm);
    assert s[0] == Free && s[1] == Head && s[2] == Free && s[3] == Free;
    assert s == [Free, Head, Free, Free];
    assert Scan(s, 2, 0, 0, 3, Cursor(2, 2)) == Cursor(2, 2);
    assert Scan(s, 2, 0, 0, 2, Cursor(1, 0)) == Cursor(2, 2);
    assert Scan(s, 2, 0, 0, 1, Cursor(1, 0)) == Cursor(2, 2);
    assert ScanAll(bm, 2, 0) == Cursor(2, 2);
    AllocateFrom(bm, 2, 0, Cursor(2, 2), 1);
    assert MarkedRun(s, 1, 2) == [Free, Head, Allocated, Free];
  }

  /**
   * With no FREE frame at all the stale `last_frame_no == 0` falls through:
   * a pool at frame 0 whose four frames are ALLOCATED hands out frame 0, and
   * the HEAD write turns frames 1..3 FREE.
   */
  lemma AllocateFallsThrough()
    ensures States([0x00]) == [Allocated, Allocated, Allocated, Allocated]
    ensures Allocate([0x00], 1, 0) == Ok(Allocation(0, [Head, Free, Free, Free]))
  {
    var bm: seq<bv8> := [0x00];
    var s := States(bm);
    assert s[0] == Allocated && s[1] == Allocated && s[2] == Allocated && s[3] == Allocated;
    assert s == [Allocated, Allocated, Allocated, Allocated];
    AllocateOne(bm, 0);
    assert FirstFree(s, 0) == 4;
    var p := PutHead(s, 0);
    assert ByteEnd(0) == 3;
    assert p[0] == Head && p[1] == Free && p[2] == Free && p[3] == Free;
    assert p == [Head, Free, Free, Free];
  }

  /**
   * The same fall-through in a pool that does not start at frame 0: the
   * stale `last_frame_no == 0` puts the run before the pool, where the
   * write would land outside the bitmap.
   */
  lemma AllocateFallsBeforePool()
    ensures Allocate([0x00], 1, 4) == Fail(BitmapOverrun)
  {
    var bm: seq<bv8> := [0x00];
    var s := States(bm);
    assert s[0] == Allocated && s[1] == Allocated && s[2] == Allocated && s[3] == Allocated;
    AllocateOne(bm, 4);
    assert FirstFree(s, 0) == 4;
  }

  /**
   * A scan that counts FREE frames but never reaches n still hands out the
   * n frames ending at the last FREE frame it counted: in
   * [FREE, ALLOCATED, ALLOCATED, FREE] a run of 3 is frames 1..3, of which
   * only frame 3 was FREE.
   */
  lemma AllocateStopsShort()
    ensures States([0xC3]) == [Free, Allocated, Allocated, Free]
    ensures Allocate([0xC3], 3, 0) == Ok(Allocation(1, [Free, Head, Allocated, Allocated]))
  {
    var bm: seq<bv8> := [0xC3];
    var s := States(bm);
    assert s[0] == Free && s[1] == Allocated && s[2] == Allocated && s[3] == Free;
    assert s == [Free, Allocated, Allocated, Free];
    assert Scan(s, 3, 0, 0, 4, Cursor(2, 3)) == Cursor(2, 3);
    assert Scan(s, 3, 0, 0, 3, Cursor(1, 0)) == Cursor(2, 3);
    assert Scan(s, 3, 0, 0, 2, Cursor(1, 0)) == Cursor(2, 3);
    assert Scan(s, 3, 0, 0, 1, Cursor(1, 0)) == Cursor(2, 3);
    assert ScanAll(bm, 3, 0) == Cursor(2, 3);
    AllocateFrom(bm, 3, 0, Cursor(2, 3), 1);
    assert MarkedRun(s, 1, 3) == [Free, Head, Allocated, Allocated];
  }

  /**
   * The HEAD write's `0xBF` mask frees the rest of the byte: taking frame 0
   * of [FREE, ALLOCATED, ALLOCATED, ALLOCATED] turns frames 1..3 FREE.
   */
  lemma HeadWriteFreesNeighbours()
    ensures States([0xC0]) == [Free, Allocated, Allocated, Allocated]
    ensures Allocate([0xC0], 1, 0) == Ok(Allocation(0, [Head, Free, Free, Free]))
  {
    var bm: seq<bv8> := [0xC0];
    var s := States(bm);
    assert s[0] == Free && s[1] == Allocated && s[2] == Allocated && s[3] == Allocated;
    assert s == [Free, Allocated, Allocated, Allocated];
    AllocateOne(bm, 0);
    assert FirstFree(s, 0) == 0;
    var p := PutHead(s, 0);
    assert ByteEnd(0) == 3;
    assert p[0] == Head && p[1] == Free && p[2] == Free && p[3] == Free;
    assert p == [Head, Free, Free, Free];
  }

  /**
   * A pool of 32 frames at frame 100 that keeps its bitmap in frame 100:
   * allocating five frames returns frame 101, makes 101 HEAD and 102..105
   * ALLOCATED, and leaves 26 FREE frames.
   */
  lemma SelfHostedScenario()
    ensures States(ScenarioBitmap()) == InitialStates(32, true)
    ensures Allocate(ScenarioBitmap(), 5, 100).Ok?
    ensures var al := Allocate(ScenarioBitmap(), 5, 100).value;
            al.first == 101 && al.states[1] == Head &&
            (forall t :: 2 <= t <= 5 ==> al.states[t] == Allocated) &&
            CountFree(al.states) == 26
  {
    ScenarioAllocate();
    ScenarioMarked();
  }

  lemma ScenarioMarked()
    ensures var m := MarkedRun(InitialStates(32, true), 1, 5);
            m[1] == Head && (forall t :: 2 <= t <= 5 ==> m[t] == Allocated) && CountFree(m) == 26
  {
    ScenarioMarkedCount();
  }

  lemma ScenarioMarkedCount()
    ensures CountFree(MarkedRun(InitialStates(32, true), 1, 5)) == 26
  {
    var s := InitialStates(32, true);
    assert ByteEnd(1) == 3;
    InitialCount(32, true);
    MarkedCount(s, 1, 5);
  }

  lemma ScenarioAllocate()
    ensures States(ScenarioBitmap()) == InitialStates(32, true)
    ensures Allocate(ScenarioBitmap(), 5, 100) ==
            Ok(Allocation(101, MarkedRun(InitialStates(32, true), 1, 5)))
  {
    ScenarioStates();
    ScenarioScan();
  }

  /** The constructor's bitmap for 32 frames kept in the pool's own first frame. */
  function ScenarioBitmap(): seq<bv8>
  {
    [0x3F, 0xFF, 0xFF, 0xFF, 0xFF, 0xFF, 0xFF, 0xFF]
  }

  lemma ScenarioStates()
    ensures States(ScenarioBitmap()) == InitialStates(32, true)
  {
    var bm := ScenarioBitmap();
    var s := States(bm);
    forall t | 0 <= t < 32
      ensures s[t] == InitialStates(32, true)[t]
    {
      assert bm[t / 4] == if t / 4 == 0 then 0x3F else 0xFF;
    }
  }

  lemma ScenarioScan()
    ensures ScanAll(ScenarioBitmap(), 5, 100) == Cursor(5, 105)
  {
    ScenarioStates();
    InitialScan();
  }

  /** The scan of the fresh self-hosted pool skips frame 0 and counts frames 1 to 5. */
  lemma InitialScan()
    ensures Scan(InitialStates(32, true), 5, 100, 0, 0, Cursor(0, 0)) == Cursor(5, 105)
  {
    InitialScanByte0();
    InitialScanByte1();
  }

  /** Byte 0: frame 100 is ALLOCATED, frames 101-103 are counted. */
  lemma InitialScanByte0()
    ensures Scan(InitialStates(32, true), 5, 100, 0, 0, Cursor(0, 0)) ==
            Scan(InitialStates(32, true), 5, 100, 1, 0, Cursor(3, 103))
  {
    var s := InitialStates(32, true);
    assert s[0] == Allocated && s[1] == Free && s[2] == Free && s[3] == Free;
    assert FieldStep(s, 0, 0, 100, Cursor(0, 0)) == Cursor(0, 0);
    assert FieldStep(s, 0, 1, 101, Cursor(0, 0)) == Cursor(1, 101);
    assert FieldStep(s, 0, 2, 102, Cursor(1, 101)) == Cursor(2, 102);
    assert FieldStep(s, 0, 3, 103, Cursor(2, 102)) == Cursor(3, 103);
    assert Scan(s, 5, 100, 0, 3, Cursor(2, 102)) == Scan(s, 5, 100, 1, 0, Cursor(3, 103));
    assert Scan(s, 5, 100, 0, 1, Cursor(0, 0)) == Scan(s, 5, 100, 0, 3, Cursor(2, 102));
  }

  /** Byte 1: frames 104 and 105 complete the run of five. */
  lemma InitialScanByte1()
    ensures Scan(InitialStates(32, true), 5, 100, 1, 0, Cursor(3, 103)) == Cursor(5, 105)
  {
    var s := InitialStates(32, true);
    assert s[4] == Free && s[5] == Free;
    assert Scan(s, 5, 100, 1, 2, Cursor(5, 105)) == Cursor(5, 105);
  }
}
