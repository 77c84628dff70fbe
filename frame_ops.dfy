/**
 * The three bitmap loops of ContFramePool (identical text in the MP2 and MP4
 * revisions), each written as a method on the bitmap array and proved
 * against a function on the frame states, plus the pool-size arithmetic.
 *
 * All positions here are relative to the pool's base frame.  The source
 * indexes the bitmap with `(k - base_frame_no) / 4` and shifts with
 * `k % 4`; the pools are required to start on a multiple of four frames, and
 * `FrameBitmap.AlignedField` shows that the two then address the same field.
 */
module FrameOps {
  import opened Common
  import opened FrameBitmap

  /* ------------------------------------------------------------ the scan */

  /** The scan's loop variables: `count` and `last_frame_no` (absolute). */
  datatype Cursor = Cursor(count: nat, last: nat)

  /** The scan's byte tests read the field states. */
  lemma FieldTests(b: bv8, p: nat)
    requires p < 4
    ensures (b & FieldMask(p) == FieldMask(p)) <==> FieldState(b, p) == Free
    ensures ((b & FieldMask(p)) ^ HeadPattern(p) == 0) <==> FieldState(b, p) == Head
    ensures (b & FieldMask(p) == 0) <==> FieldState(b, p) == Allocated
  {
  }

  /**
   * One iteration of the inner loop of get_frames at field j of byte i,
   * frame `frame`, stated on the frame states s: a FREE field increments
   * the count and becomes `last_frame_no`; then the field of the SAME byte
   * at position `last_frame_no % 4` is read, and the count is reset only if
   * that field is exactly HEAD.
   */
  function FieldStep(s: seq<State>, i: nat, j: nat, frame: nat, c: Cursor): Cursor
    requires 4 * i + 4 <= |s| && j < 4
  {
    var c1 := if s[4 * i + j] == Free then Cursor(c.count + 1, frame) else c;
    if s[4 * i + c1.last % 4] == Head then Cursor(0, c1.last) else c1
  }

  /**
   * The scan from field j of byte i on: it stops as soon as `count` reaches
   * n, or after the last byte.
   */
  function Scan(s: seq<State>, n: nat, base: nat, i: nat, j: nat, c: Cursor): Cursor
    requires |s| % 4 == 0 && 4 * i <= |s| && j <= 4
    decreases |s| - 4 * i, 4 - j
  {
    if 4 * i == |s| || c.count >= n then c
    else if j == 4 then Scan(s, n, base, i + 1, 0, c)
    else Scan(s, n, base, i, j + 1, FieldStep(s, i, j, base + 4 * i + j, c))
  }

  /** The scan as get_frames starts it, over the bitmap's states. */
  function ScanAll(bm: seq<bv8>, n: nat, base: nat): Cursor
  {
    Scan(States(bm), n, base, 0, 0, Cursor(0, 0))
  }

  /**
   * A field step either resets the count or adds one for a FREE field, and
   * moves `last_frame_no` only onto a FREE field.
   */
  lemma FieldStepMoves(s: seq<State>, i: nat, j: nat, frame: nat, c: Cursor)
    requires 4 * i + 4 <= |s| && j < 4
    ensures var r := FieldStep(s, i, j, frame, c);
            (r.count == 0 || r.count == c.count + (if s[4 * i + j] == Free then 1 else 0)) &&
            (s[4 * i + j] == Free ==> r.last == frame) &&
            (s[4 * i + j] != Free ==> r.last == c.last)
  {
  }

  /** The scan stops at once when the count has reached n, and never passes n. */
  lemma {:induction false} ScanBounded(s: seq<State>, n: nat, base: nat, i: nat, j: nat, c: Cursor)
    requires |s| % 4 == 0 && 4 * i <= |s| && j <= 4
    ensures c.count >= n ==> Scan(s, n, base, i, j, c) == c
    ensures c.count <= n ==> Scan(s, n, base, i, j, c).count <= n
    decreases |s| - 4 * i, 4 - j
  {
    if 4 * i == |s| || c.count >= n {
    } else if j == 4 {
      ScanBounded(s, n, base, i + 1, 0, c);
    } else {
      var c1 := FieldStep(s, i, j, base + 4 * i + j, c);
      FieldStepMoves(s, i, j, base + 4 * i + j, c);
      ScanBounded(s, n, base, i, j + 1, c1);
    }
  }

  /** get_frames' scan reports at most n frames, and nothing for n == 0 or an empty bitmap. */
  lemma ScanAllBounded(bm: seq<bv8>, n: nat, base: nat)
    ensures ScanAll(bm, n, base).count <= n
    ensures n == 0 || bm == [] ==> ScanAll(bm, n, base) == Cursor(0, 0)
  {
    StatesLength(bm);
    ScanBounded(States(bm), n, base, 0, 0, Cursor(0, 0));
  }

  /**
   * The nested while/for loop of get_frames (MP4/submissions/cont_frame_pool.C
   * lines 199-231; the MP2 loop is the same text).
   */
  method ScanForRun(bitmap: array<bv8>, ghost s: seq<State>, n: nat, base: nat)
    returns (count: nat, last: nat)
    requires BitmapHolds(s, bitmap[..])
    ensures Cursor(count, last) == Scan(s, n, base, 0, 0, Cursor(0, 0))
  {
    ghost var result := Scan(s, n, base, 0, 0, Cursor(0, 0));
    count, last := 0, 0;
    var i := 0;
    while i < bitmap.Length && count < n
      invariant 0 <= i <= bitmap.Length
      invariant result == Scan(s, n, base, i, 0, Cursor(count, last))
    {
      count, last := ScanByte(bitmap, s, n, base, i, count, last);
      i := i + 1;
    }
  }

  /**
   * The inner `for` loop of get_frames over the four fields of byte i of a
   * bitmap whose states are s.
   */
  method ScanByte(bitmap: array<bv8>, ghost s: seq<State>, n: nat, base: nat, i: nat, count: nat, last: nat)
    returns (count': nat, last': nat)
    requires i < bitmap.Length && BitmapHolds(s, bitmap[..])
    ensures Scan(s, n, base, i, 0, Cursor(count, last)) == Scan(s, n, base, i + 1, 0, Cursor(count', last'))
  {
    assert ByteHolds(s, i, bitmap[..][i]);
    count', last' := count, last;
    var j := 0;
    var mask: bv8 := 0xC0;
    while j < 4 && count' < n
      invariant 0 <= j <= 4
      invariant j < 4 ==> mask == FieldMask(j)
      invariant Scan(s, n, base, i, 0, Cursor(count, last)) == Scan(s, n, base, i, j, Cursor(count', last'))
    {
      ScanStep(s, n, base, i, j, Cursor(count', last'));
      count', last' := ScanField(bitmap[i], mask, s, i, j, base + 4 * i + j, count', last');
      if j < 3 {
        NextFieldMask(j);
      }
      mask := mask >> 2;
      j := j + 1;
    }
  }

  /** One field of the scan, while the count is below n. */
  lemma ScanStep(s: seq<State>, n: nat, base: nat, i: nat, j: nat, c: Cursor)
    requires |s| % 4 == 0 && 4 * i + 4 <= |s| && j < 4 && c.count < n
    ensures Scan(s, n, base, i, j, c) == Scan(s, n, base, i, j + 1, FieldStep(s, i, j, base + 4 * i + j, c))
  {
  }

  /**
   * The body of the inner loop on byte b (byte i of a bitmap whose states
   * are s), field j: the `(b & mask) == mask` test, then the head probe at
   * `p = last_frame_no % 4`.
   */
  method ScanField(b: bv8, mask: bv8, ghost s: seq<State>, ghost i: nat, j: nat, frame: nat,
                   count: nat, last: nat)
    returns (count': nat, last': nat)
    requires j < 4 && mask == FieldMask(j) && 4 * i + 4 <= |s|
    requires ByteHolds(s, i, b)
    ensures Cursor(count', last') == FieldStep(s, i, j, frame, Cursor(count, last))
  {
    count', last' := count, last;
    var free := IsFreeField(b, mask, j);
    FieldOf(s, i, b, j);
    if free {
      count' := count' + 1;
      last' := frame;
    }
    FieldOf(s, i, b, last' % 4);
    var head := IsHeadField(b, last' % 4);
    if head {
      count' := 0;
    }
  }

  /** The scan's free test `(b & mask) == mask`. */
  method IsFreeField(b: bv8, mask: bv8, j: nat) returns (free: bool)
    requires j < 4 && mask == FieldMask(j)
    ensures free <==> FieldState(b, j) == Free
  {
    FieldTests(b, j);
    free := b & mask == mask;
  }

  /** The scan's head probe `((b & (0xC0 >> p*2)) ^ (0x80 >> p*2)) == 0`. */
  method IsHeadField(b: bv8, p: nat) returns (head: bool)
    requires p < 4
    ensures head <==> FieldState(b, p) == Head
  {
    FieldTests(b, p);
    head := (b & FieldMask(p)) ^ HeadPattern(p) == 0;
  }

  /** A bitmap holds four states per byte. */
  lemma StatesLength(bm: seq<bv8>)
    ensures |States(bm)| == 4 * |bm| && |States(bm)| % 4 == 0
  {
  }

  /** States 4*i .. 4*i+3 of s are the four fields of byte b. */
  ghost predicate ByteHolds(s: seq<State>, i: nat, b: bv8)
  {
    4 * i + 4 <= |s| && s[4 * i] == FieldState(b, 0) && s[4 * i + 1] == FieldState(b, 1) &&
    s[4 * i + 2] == FieldState(b, 2) && s[4 * i + 3] == FieldState(b, 3)
  }

  lemma FieldOf(s: seq<State>, i: nat, b: bv8, p: nat)
    requires ByteHolds(s, i, b) && p < 4
    ensures s[4 * i + p] == FieldState(b, p)
  {
  }

  /** s is the sequence of field states of bm. */
  ghost predicate BitmapHolds(s: seq<State>, bm: seq<bv8>)
  {
    |s| == 4 * |bm| && |s| % 4 == 0 &&
    forall i {:trigger ByteHolds(s, i, bm[i])} :: 0 <= i < |bm| ==> ByteHolds(s, i, bm[i])
  }

  lemma BitmapStates(bm: seq<bv8>)
    ensures BitmapHolds(States(bm), bm)
  {
    StatesLength(bm);
    forall i | 0 <= i < |bm|
      ensures ByteHolds(States(bm), i, bm[i])
    {
      ByteStates(bm, i);
    }
  }

  /** Byte i of a bitmap holds states 4*i .. 4*i+3. */
  lemma ByteStates(bm: seq<bv8>, i: nat)
    requires i < |bm|
    ensures ByteHolds(States(bm), i, bm[i])
  {
    StateAt(bm, i, 0);
    StateAt(bm, i, 1);
    StateAt(bm, i, 2);
    StateAt(bm, i, 3);
  }

  /** Field p of byte i is frame 4*i + p. */
  lemma StateAt(bm: seq<bv8>, i: nat, p: nat)
    requires i < |bm| && p < 4
    ensures 4 * i + p < |States(bm)| && States(bm)[4 * i + p] == FieldState(bm[i], p)
  {
    var t := 4 * i + p;
    assert t / 4 == i && t % 4 == p;
  }

  /** With an aligned base, frame base + 4*i + j sits at position j of its byte. */
  lemma AlignedPosition(base: nat, i: nat, j: nat)
    requires base % 4 == 0 && j < 4
    ensures (base + 4 * i + j) % 4 == j
  {
    AlignedField(base + 4 * i + j, base);
    assert (4 * i + j) % 4 == j;
  }

  /* ------------------------------------------- what the scan can report */

  /**
   * What the scan's cursor satisfies at field j of byte i: the count never
   * passes n, and while it is positive `last` is a FREE frame of the pool,
   * already passed, with at least `count - 1` frames of the pool before it.
   */
  ghost predicate CursorOk(s: seq<State>, n: nat, base: nat, i: nat, j: nat, c: Cursor)
  {
    c.count <= n && (c.last == 0 || base <= c.last < base + 4 * i + j) &&
    (c.count > 0 ==> base <= c.last < base + 4 * i + j && c.last - base < |s| &&
                     s[c.last - base] == Free && c.count <= c.last - base + 1)
  }

  lemma {:induction false} ScanKeeps(s: seq<State>, n: nat, base: nat, i: nat, j: nat, c: Cursor)
    requires |s| % 4 == 0 && 4 * i <= |s| && j <= 4 && 4 * i + j <= |s|
    requires CursorOk(s, n, base, i, j, c)
    ensures CursorOk(s, n, base, |s| / 4, 0, Scan(s, n, base, i, j, c))
    decreases |s| - 4 * i, 4 - j
  {
    if 4 * i < |s| && c.count < n {
      if j == 4 {
        ScanKeeps(s, n, base, i + 1, 0, c);
      } else {
        StepKeeps(s, n, base, i, j, c);
        ScanKeeps(s, n, base, i, j + 1, FieldStep(s, i, j, base + 4 * i + j, c));
      }
    } else {
      assert 4 * i + j <= |s| == 4 * (|s| / 4) + 0;
    }
  }

  lemma StepKeeps(s: seq<State>, n: nat, base: nat, i: nat, j: nat, c: Cursor)
    requires 4 * i + 4 <= |s| && j < 4 && c.count < n
    requires CursorOk(s, n, base, i, j, c)
    ensures CursorOk(s, n, base, i, j + 1, FieldStep(s, i, j, base + 4 * i + j, c))
  {
  }

  /**
   * The scan's `last` is 0 or a frame of the pool; a scan that reaches
   * n >= 1 ends on a FREE frame, and the n frames it claims end there and
   * start inside the pool.
   */
  lemma ScanFoundInPool(bm: seq<bv8>, n: nat, base: nat)
    ensures ScanAll(bm, n, base).count <= n
    ensures ScanAll(bm, n, base).last == 0 || base <= ScanAll(bm, n, base).last < base + 4 * |bm|
    ensures ScanAll(bm, n, base).count == n >= 1 ==>
              var l := ScanAll(bm, n, base).last;
              base <= l - n + 1 && l < base + 4 * |bm| && States(bm)[l - base] == Free
  {
    ScanKeeps(States(bm), n, base, 0, 0, Cursor(0, 0));
  }

  /** There is a run of n FREE frames starting at relative frame a. */
  ghost predicate FreeRunAt(s: seq<State>, a: nat, n: nat)
  {
    a + n <= |s| && forall u :: a <= u < a + n ==> s[u] == Free
  }

  /** Inside a FREE run the probe reads the frame just counted, so nothing resets the count. */
  lemma {:induction false} ScanThroughRun(s: seq<State>, n: nat, base: nat, i: nat, j: nat, c: Cursor, a: nat)
    requires base % 4 == 0 && |s| % 4 == 0 && 4 * i <= |s| && j <= 4
    requires FreeRunAt(s, a, n) && a <= 4 * i + j <= a + n && c.count >= 4 * i + j - a
    ensures Scan(s, n, base, i, j, c).count >= n
    decreases |s| - 4 * i, 4 - j
  {
    if 4 * i < |s| && c.count < n {
      if j == 4 {
        ScanThroughRun(s, n, base, i + 1, 0, c, a);
      } else {
        AlignedPosition(base, i, j);
        ScanThroughRun(s, n, base, i, j + 1, FieldStep(s, i, j, base + 4 * i + j, c), a);
      }
    }
  }

  lemma {:induction false} ScanReachesRun(s: seq<State>, n: nat, base: nat, i: nat, j: nat, c: Cursor, a: nat)
    requires base % 4 == 0 && |s| % 4 == 0 && 4 * i <= |s| && j <= 4
    requires FreeRunAt(s, a, n) && 4 * i + j <= a
    ensures Scan(s, n, base, i, j, c).count >= n
    decreases |s| - 4 * i, 4 - j
  {
    if 4 * i + j == a {
      ScanThroughRun(s, n, base, i, j, c, a);
    } else if c.count < n {
      if j == 4 {
        ScanReachesRun(s, n, base, i + 1, 0, c, a);
      } else {
        ScanReachesRun(s, n, base, i, j + 1, FieldStep(s, i, j, base + 4 * i + j, c), a);
      }
    }
  }

  /** Completeness: if the pool holds n contiguous FREE frames, the scan reaches count n. */
  lemma ScanFindsRun(bm: seq<bv8>, n: nat, base: nat, a: nat)
    requires base % 4 == 0
    requires FreeRunAt(States(bm), a, n)
    ensures ScanAll(bm, n, base).count == n
  {
    ScanReachesRun(States(bm), n, base, 0, 0, Cursor(0, 0), a);
    ScanFoundInPool(bm, n, base);
  }

  /** First FREE relative frame at or after t, or the pool's end. */
  function FirstFree(s: seq<State>, t: nat): (f: nat)
    requires t <= |s|
    ensures t <= f <= |s|
    ensures forall u :: t <= u < f ==> s[u] != Free
    ensures f < |s| ==> s[f] == Free
    decreases |s| - t
  {
    if t == |s| || s[t] == Free then t else FirstFree(s, t + 1)
  }

  /** The cursor a one-frame scan from field t should end with. */
  function FirstFreeCursor(s: seq<State>, base: nat, t: nat): Cursor
    requires t <= |s|
  {
    var f := FirstFree(s, t);
    if f < |s| then Cursor(1, base + f) else Cursor(0, 0)
  }

  lemma {:induction false} ScanOneFrom(s: seq<State>, base: nat, i: nat, j: nat)
    requires base % 4 == 0 && |s| % 4 == 0 && 4 * i <= |s| && j <= 4 && 4 * i + j <= |s|
    ensures Scan(s, 1, base, i, j, Cursor(0, 0)) == FirstFreeCursor(s, base, 4 * i + j)
    decreases |s| - 4 * i, 4 - j
  {
    if 4 * i == |s| {
      assert FirstFree(s, 4 * i + j) == |s|;
    } else if j == 4 {
      ScanOneFrom(s, base, i + 1, 0);
      assert 4 * i + j == 4 * (i + 1) + 0;
    } else if s[4 * i + j] == Free {
      OneFree(s, base, i, j);
    } else {
      ScanOneFrom(s, base, i, j + 1);
      OneNotFree(s, base, i, j);
    }
  }

  /** With nothing counted yet, a FREE field ends the scan on that frame. */
  lemma OneFree(s: seq<State>, base: nat, i: nat, j: nat)
    requires base % 4 == 0 && |s| % 4 == 0 && 4 * i + 4 <= |s| && j < 4 && s[4 * i + j] == Free
    ensures Scan(s, 1, base, i, j, Cursor(0, 0)) == Cursor(1, base + 4 * i + j)
    ensures FirstFree(s, 4 * i + j) == 4 * i + j
    ensures Scan(s, 1, base, i, j, Cursor(0, 0)) == FirstFreeCursor(s, base, 4 * i + j)
  {
    AlignedPosition(base, i, j);
    var c1 := FieldStep(s, i, j, base + 4 * i + j, Cursor(0, 0));
    assert c1 == Cursor(1, base + 4 * i + j);
    assert Scan(s, 1, base, i, j + 1, c1) == c1;
  }

  /** With nothing counted yet, a field that is not FREE changes nothing. */
  lemma OneNotFree(s: seq<State>, base: nat, i: nat, j: nat)
    requires base % 4 == 0 && |s| % 4 == 0 && 4 * i + 4 <= |s| && j < 4 && s[4 * i + j] != Free
    ensures Scan(s, 1, base, i, j, Cursor(0, 0)) == Scan(s, 1, base, i, j + 1, Cursor(0, 0))
    ensures FirstFree(s, 4 * i + j) == FirstFree(s, 4 * i + j + 1)
    ensures FirstFreeCursor(s, base, 4 * i + j) == FirstFreeCursor(s, base, 4 * i + j + 1)
  {
    AlignedPosition(base, i, j);
    assert FieldStep(s, i, j, base + 4 * i + j, Cursor(0, 0)) == Cursor(0, 0);
  }

  /** With n == 1 the scan finds exactly the lowest FREE frame, if there is one. */
  lemma ScanOne(bm: seq<bv8>, base: nat)
    requires base % 4 == 0
    ensures var f := FirstFree(States(bm), 0);
            ScanAll(bm, 1, base) == if f < 4 * |bm| then Cursor(1, base + f) else Cursor(0, 0)
  {
    ScanOneFrom(States(bm), base, 0, 0);
  }

  /* ------------------------------------------------------- the allocation */

  /**
   * Field states after get_frames marks relative frame q HEAD and q+1..l
   * ALLOCATED: the HEAD write also leaves the fields after q in q's byte
   * FREE, and those the ALLOCATED writes do not reach stay FREE.
   */
  function MarkedRun(s: seq<State>, q: nat, l: int): (r: seq<State>)
    requires q < |s|
    ensures |r| == |s| && r[q] == Head
  {
    seq(|s|, t requires 0 <= t < |s| =>
      if t == q then Head
      else if q < t <= l then Allocated
      else if q < t <= ByteEnd(q) then Free
      else s[t])
  }

  /**
   * The marking touches nothing before q, makes q+1..l ALLOCATED, and
   * changes no frame past both l and the end of q's byte.
   */
  lemma MarkedRunFrames(s: seq<State>, q: nat, l: int)
    requires q < |s|
    ensures var r := MarkedRun(s, q, l);
            (forall t :: 0 <= t < q ==> r[t] == s[t]) &&
            (forall t :: q < t < |s| && t <= l ==> r[t] == Allocated) &&
            (forall t :: q < t < |s| && r[t] != s[t] ==> t <= l || t <= ByteEnd(q))
  {
  }

  /** What get_frames returns and leaves, when its writes stay inside the bitmap. */
  datatype Allocation = Allocation(first: u32, states: seq<State>)

  /**
   * get_frames after its free-count assertion: scan, take
   * `first = last_frame_no - n + 1` in 32-bit arithmetic, and mark the run.
   * A `first` outside the pool would be written outside the bitmap; the
   * model reports that instead.
   */
  function Allocate(bm: seq<bv8>, n: nat, base: nat): (r: Outcome<Allocation>)
    ensures r.Ok? ==> base <= r.value.first < base + 4 * |bm| && |r.value.states| == 4 * |bm|
  {
    var c := ScanAll(bm, n, base);
    var first := Wrap32(c.last - n + 1);
    if base <= first < base + 4 * |bm| then
      Ok(Allocation(first, MarkedRun(States(bm), first - base, c.last - base)))
    else
      Fail(BitmapOverrun)
  }

  /**
   * One get_frames(1) that takes a pool's bitmap from `before` to `after`:
   * when it handed out `frame`, the frame and states Allocate gives for a run
   * of one; when it handed out nothing, the bitmap as it was.
   */
  ghost predicate TookOne(before: seq<bv8>, frame: Option<u32>, after: seq<bv8>, base: nat)
  {
    match frame
    case Some(f) => Allocate(before, 1, base) == Ok(Allocation(f, States(after)))
    case None => after == before
  }

  /** 1 for a frame handed out, 0 for none. */
  function Count(frame: Option<u32>): nat
  {
    if frame.Some? then 1 else 0
  }

  /** The scan's last frame lies below the pool's end. */
  lemma ScanEndsInPool(bm: seq<bv8>, n: nat, base: nat)
    ensures ScanAll(bm, n, base).last < base + 4 * |bm| || |bm| == 0
  {
    ScanFoundInPool(bm, n, base);
  }

  /** Allocate once the scan's cursor c and the first frame are known. */
  lemma AllocateFrom(bm: seq<bv8>, n: nat, base: nat, c: Cursor, first: nat)
    requires c == ScanAll(bm, n, base) && first == Wrap32(c.last - n + 1)
    ensures base <= first < base + 4 * |bm| ==>
              Allocate(bm, n, base) == Ok(Allocation(first, MarkedRun(States(bm), first - base, c.last - base)))
    ensures !(base <= first < base + 4 * |bm|) ==> Allocate(bm, n, base) == Fail(BitmapOverrun)
  {
  }

  /**
   * get_frames after its free-count assertion, on the bitmap: the scan, the
   * first frame in 32-bit arithmetic, and the marking, or BitmapOverrun
   * with nothing written when the first frame lies outside the pool.
   */
  method TakeRun(bitmap: array<bv8>, n: nat, base: nat) returns (r: Outcome<u32>)
    modifies bitmap
    ensures match Allocate(old(bitmap[..]), n, base)
            case Ok(al) => r == Ok(al.first) && States(bitmap[..]) == al.states
            case Fail(f) => r == Fail(f) && bitmap[..] == old(bitmap[..])
  {
    ghost var bm := bitmap[..];
    BitmapStates(bm);
    var count, last := ScanForRun(bitmap, States(bm), n, base);
    ScanEndsInPool(bm, n, base);
    var first := Wrap32(last - n + 1);
    AllocateFrom(bm, n, base, Cursor(count, last), first);
    if base <= first < base + 4 * bitmap.Length {
      MarkRun(bitmap, first - base, last - base);
      r := Ok(first);
    } else {
      r := Fail(BitmapOverrun);
    }
  }

  /**
   * The marking part of get_frames (MP4/submissions/cont_frame_pool.C lines
   * 236-260): one HEAD write at q, then one ALLOCATED write per frame q+1..l.
   */
  method MarkRun(bitmap: array<bv8>, q: nat, l: int)
    requires q < 4 * bitmap.Length && l < 4 * bitmap.Length
    modifies bitmap
    ensures States(bitmap[..]) == MarkedRun(old(States(bitmap[..])), q, l)
  {
    ghost var s := States(bitmap[..]);
    WriteHead(bitmap[..], q);
    bitmap[q / 4] := SetHeadByte(bitmap[q / 4], q % 4);
    assert States(bitmap[..]) == MarkedRun(s, q, q);
    var k := q + 1;
    while k <= l
      invariant q + 1 <= k <= if l < q then q + 1 else l + 1
      invariant States(bitmap[..]) == MarkedRun(s, q, k - 1)
    {
      WriteAllocated(bitmap[..], k);
      bitmap[k / 4] := SetAllocatedByte(bitmap[k / 4], k % 4);
      assert MarkedRun(s, q, k - 1)[k := Allocated] == MarkedRun(s, q, k);
      k := k + 1;
    }
    assert MarkedRun(s, q, k - 1) == MarkedRun(s, q, l);
  }

  /* --------------------------------------------------- mark_inaccessible */

  /**
   * Field states after mark_inaccessible writes HEAD into every frame of
   * lo..hi: each write also sets the later fields of its byte FREE, and only
   * the last byte's trailing fields are not overwritten again.
   */
  function MarkedRange(s: seq<State>, lo: nat, hi: int): (r: seq<State>)
    ensures |r| == |s|
  {
    seq(|s|, t requires 0 <= t < |s| =>
      if lo <= t <= hi then Head
      else if lo <= hi < t <= ByteEnd(hi) then Free
      else s[t])
  }

  /** Every frame of lo..hi is HEAD, and nothing outside lo up to the end of hi's byte changes. */
  lemma MarkedRangeFrames(s: seq<State>, lo: nat, hi: int)
    ensures var r := MarkedRange(s, lo, hi);
            (forall t :: lo <= t < |s| && t <= hi ==> r[t] == Head) &&
            (forall t :: 0 <= t < |s| && r[t] != s[t] ==> lo <= t <= ByteEnd(hi))
  {
  }

  lemma MarkedRangeStep(s: seq<State>, lo: nat, k: nat)
    requires lo <= k < |s|
    ensures PutHead(MarkedRange(s, lo, k - 1), k) == MarkedRange(s, lo, k)
  {
    var a, b := PutHead(MarkedRange(s, lo, k - 1), k), MarkedRange(s, lo, k);
    forall t | 0 <= t < |s|
      ensures a[t] == b[t]
    {
      if lo <= k - 1 < t <= ByteEnd(k - 1) && t > k {
        assert ByteEnd(k - 1) == ByteEnd(k);
      }
    }
  }

  /** The loop of mark_inaccessible (MP4/submissions/cont_frame_pool.C lines 289-301). */
  method MarkRange(bitmap: array<bv8>, lo: nat, hi: int)
    requires hi < 4 * bitmap.Length
    modifies bitmap
    ensures States(bitmap[..]) == MarkedRange(old(States(bitmap[..])), lo, hi)
  {
    ghost var s := States(bitmap[..]);
    assert MarkedRange(s, lo, lo - 1) == s;
    var k := lo;
    while k <= hi
      invariant lo <= k <= if hi < lo then lo else hi + 1
      invariant States(bitmap[..]) == MarkedRange(s, lo, k - 1)
    {
      WriteHead(bitmap[..], k);
      bitmap[k / 4] := SetHeadByte(bitmap[k / 4], k % 4);
      MarkedRangeStep(s, lo, k);
      k := k + 1;
    }
    assert MarkedRange(s, lo, k - 1) == MarkedRange(s, lo, hi);
  }

  /* ------------------------------------------------------ release_frames */

  /** First relative frame at or after t that is not ALLOCATED, or the pool's end. */
  function RunEnd(s: seq<State>, t: nat): (e: nat)
    requires t <= |s|
    ensures t <= e <= |s|
    ensures forall u :: t <= u < e ==> s[u] == Allocated
    ensures e < |s| ==> s[e] != Allocated
    decreases |s| - t
  {
    if t == |s| || s[t] != Allocated then t else RunEnd(s, t + 1)
  }

  /** The three properties above pin RunEnd down. */
  lemma {:induction false} RunEndUnique(s: seq<State>, t: nat, e: nat)
    requires t <= e <= |s|
    requires forall u :: t <= u < e ==> s[u] == Allocated
    requires e < |s| ==> s[e] != Allocated
    ensures RunEnd(s, t) == e
    decreases e - t
  {
    if t < e {
      RunEndUnique(s, t + 1, e);
    }
  }

  /** Frames q..e-1 made FREE, everything else as in s. */
  function FreedUpTo(s: seq<State>, q: nat, e: nat): (r: seq<State>)
    ensures |r| == |s|
    ensures forall t :: 0 <= t < |s| ==> (r[t] == Free <==> s[t] == Free || q <= t < e)
    ensures forall t :: 0 <= t < |s| && r[t] != Free ==> r[t] == s[t]
  {
    seq(|s|, t requires 0 <= t < |s| => if q <= t < e then Free else s[t])
  }

  /** release_frames on relative frame q: q and the ALLOCATED run after it become FREE. */
  function Released(s: seq<State>, q: nat): (r: seq<State>)
    requires q < |s|
    ensures |r| == |s| && r[q] == Free
    ensures forall t :: 0 <= t < q ==> r[t] == s[t]
    ensures forall t :: q < t < |s| && r[t] != s[t] ==> s[t] == Allocated
    ensures q + 1 < |s| && s[q + 1] != Allocated ==> r == s[q := Free]
  {
    FreedUpTo(s, q, RunEnd(s, q + 1))
  }

  /**
   * The loop reads one field past the pool when the ALLOCATED run after q
   * reaches the pool's last frame and q itself is not that last frame: its
   * guard tests the byte index of the previous frame.
   */
  predicate ReleaseOverruns(s: seq<State>, q: nat)
    requires q < |s|
  {
    q + 1 < |s| && RunEnd(s, q + 1) == |s|
  }

  /** What a release leaves: its outcome and the pool's new frame states. */
  datatype Effect = Effect(outcome: Outcome<()>, states: seq<State>)

  /**
   * release_frames once the owning pool is chosen, on relative frame q: a
   * frame outside the pool indexes outside the bitmap; the head check
   * accepts HEAD, and FREE too unless `exactHead`; then the frame and the
   * ALLOCATED run after it are freed, and the loop's read past the bitmap,
   * if it happens, is reported after those writes.
   */
  function ReleaseAt(s: seq<State>, q: int, exactHead: bool): (e: Effect)
    ensures |e.states| == |s|
    ensures e.outcome == Ok(()) ==> 0 <= q < |s| && e.states[q] == Free
    ensures e.outcome.Fail? ==> e.outcome.failure in {BitmapOverrun, NotHeadFrame}
  {
    if q < 0 || q >= |s| then Effect(Fail(BitmapOverrun), s)
    else if !(s[q] == Head || (!exactHead && s[q] == Free)) then Effect(Fail(NotHeadFrame), s)
    else Effect(if ReleaseOverruns(s, q) then Fail(BitmapOverrun) else Ok(()), Released(s, q))
  }

  /**
   * release_frames on the owning pool's bitmap, at relative frame q: the
   * bounds, the head check (high bit only, or the exact `10` pattern when
   * `exactHead`), and the freeing loop.
   */
  method ReleaseRun(bitmap: array<bv8>, q: int, exactHead: bool) returns (r: Outcome<()>)
    modifies bitmap
    ensures var e := ReleaseAt(old(States(bitmap[..])), q, exactHead);
            r == e.outcome && States(bitmap[..]) == e.states
  {
    ghost var s := States(bitmap[..]);
    if q < 0 || q >= 4 * bitmap.Length {
      return Fail(BitmapOverrun);
    }
    var b := bitmap[q / 4];
    var p := q % 4;
    var head := if exactHead then (b & FieldMask(p)) ^ HeadPattern(p) == 0
                else b & HeadPattern(p) == HeadPattern(p);
    HighBitTest(b, p);
    FieldTests(b, p);
    assert s[q] == FieldState(b, p);
    if !head {
      return Fail(NotHeadFrame);
    }
    var freed, overrun := FreeRun(bitmap, q);
    r := if overrun then Fail(BitmapOverrun) else Ok(());
  }

  /**
   * The freeing part of release_frames (MP4/submissions/cont_frame_pool.C
   * lines 354-392): free q, then free frames while they read `00`.  It
   * returns `frame_free_count` and whether the loop would index
   * `bitmap[nframes/4]`; at that point it stops.
   */
  method FreeRun(bitmap: array<bv8>, q: nat) returns (freed: nat, overrun: bool)
    requires q < 4 * bitmap.Length
    modifies bitmap
    ensures States(bitmap[..]) == Released(old(States(bitmap[..])), q)
    ensures overrun == ReleaseOverruns(old(States(bitmap[..])), q)
    ensures freed == RunEnd(old(States(bitmap[..])), q + 1) - q
  {
    ghost var s := States(bitmap[..]);
    FreeFirst(bitmap[..], q);
    bitmap[q / 4] := SetFreeByte(bitmap[q / 4], q % 4);
    var next := q + 1;
    freed := 1;
    overrun := false;
    var i := next / 4;
    while i < bitmap.Length
      invariant q + 1 <= next <= 4 * bitmap.Length
      invariant next == q + 1 ==> i == (q + 1) / 4
      invariant next > q + 1 ==> i < bitmap.Length
      invariant RunEnd(s, q + 1) >= next
      invariant States(bitmap[..]) == FreedUpTo(s, q, next)
      invariant freed == next - q
      decreases 4 * bitmap.Length - next
    {
      i := next / 4;
      if i >= bitmap.Length {
        overrun := true;
        break;
      }
      var cleared := FreeIfAllocated(bitmap, s, q, next);
      if !cleared {
        break;
      }
      freed := freed + 1;
      next := next + 1;
    }
  }

  /**
   * The body of the release loop at relative frame k: the `(bitmap[i] & mask)
   * == 0` test and the `bitmap[i] | mask` write.
   */
  method FreeIfAllocated(bitmap: array<bv8>, ghost s: seq<State>, q: nat, k: nat) returns (cleared: bool)
    requires q < k < 4 * bitmap.Length && |s| == 4 * bitmap.Length
    requires States(bitmap[..]) == FreedUpTo(s, q, k) && RunEnd(s, q + 1) >= k
    modifies bitmap
    ensures cleared ==> RunEnd(s, q + 1) >= k + 1 && States(bitmap[..]) == FreedUpTo(s, q, k + 1)
    ensures !cleared ==> RunEnd(s, q + 1) == k && bitmap[..] == old(bitmap[..])
  {
    FreeStep(bitmap[..], s, q, k);
    var i := k / 4;
    var mask := FieldMask(k % 4);
    cleared := bitmap[i] & mask == 0;
    if cleared {
      bitmap[i] := bitmap[i] | mask;
    }
  }

  /** The release writes FREE into the target field first. */
  lemma FreeFirst(bm: seq<bv8>, q: nat)
    requires q < 4 * |bm|
    ensures States(bm[q / 4 := SetFreeByte(bm[q / 4], q % 4)]) == FreedUpTo(States(bm), q, q + 1)
    ensures RunEnd(States(bm), q + 1) >= q + 1
  {
    WriteFree(bm, q);
    assert States(bm)[q := Free] == FreedUpTo(States(bm), q, q + 1);
  }

  /**
   * One iteration of the release loop at relative frame k: if the field
   * reads `00` (it is ALLOCATED in the original states), the FREE write
   * extends the freed prefix; otherwise the ALLOCATED run ends at k.
   */
  lemma FreeStep(bm: seq<bv8>, s: seq<State>, q: nat, k: nat)
    requires q < k < 4 * |bm| && |s| == 4 * |bm|
    requires States(bm) == FreedUpTo(s, q, k) && RunEnd(s, q + 1) >= k
    ensures (bm[k / 4] & FieldMask(k % 4) == 0) ==>
              RunEnd(s, q + 1) >= k + 1 &&
              States(bm[k / 4 := bm[k / 4] | FieldMask(k % 4)]) == FreedUpTo(s, q, k + 1)
    ensures (bm[k / 4] & FieldMask(k % 4) != 0) ==> RunEnd(s, q + 1) == k
  {
    FreeTest(bm, s, q, k);
    if bm[k / 4] & FieldMask(k % 4) == 0 {
      FreeExtends(bm, s, q, k);
    }
  }

  lemma FreeTest(bm: seq<bv8>, s: seq<State>, q: nat, k: nat)
    requires q < k < 4 * |bm| && |s| == 4 * |bm|
    requires States(bm) == FreedUpTo(s, q, k)
    ensures (bm[k / 4] & FieldMask(k % 4) == 0) <==> s[k] == Allocated
  {
    FieldTests(bm[k / 4], k % 4);
    assert States(bm)[k] == s[k];
  }

  lemma FreeExtends(bm: seq<bv8>, s: seq<State>, q: nat, k: nat)
    requires q < k < 4 * |bm| && |s| == 4 * |bm|
    requires States(bm) == FreedUpTo(s, q, k)
    ensures States(bm[k / 4 := bm[k / 4] | FieldMask(k % 4)]) == FreedUpTo(s, q, k + 1)
  {
    WriteFree(bm, k);
    assert States(bm)[k := Free] == FreedUpTo(s, q, k + 1);
  }

  /* ------------------------------------------------------- construction */

  /** Initial states: all FREE, except frame 0 ALLOCATED when the pool holds its own bitmap. */
  function InitialStates(nframes: nat, selfHosted: bool): (r: seq<State>)
    ensures |r| == nframes
    ensures forall t :: 0 <= t < nframes ==> (r[t] == Free <==> !(selfHosted && t == 0))
    ensures forall t :: 0 <= t < nframes ==> r[t] != Head && r[t] != Unused
  {
    seq(nframes, t requires 0 <= t < nframes => if selfHosted && t == 0 then Allocated else Free)
  }

  /**
   * The constructor's writes: `0xFF` into every byte and, for a pool that
   * keeps its bitmap in its own first frame, `0x3F` into byte 0.
   */
  method InitBitmap(bitmap: array<bv8>, selfHosted: bool)
    requires selfHosted ==> bitmap.Length > 0
    modifies bitmap
    ensures States(bitmap[..]) == InitialStates(4 * bitmap.Length, selfHosted)
  {
    var i := 0;
    while i < bitmap.Length
      invariant 0 <= i <= bitmap.Length
      invariant forall m :: 0 <= m < i ==> bitmap[m] == 0xFF
    {
      bitmap[i] := 0xFF;
      i := i + 1;
    }
    if selfHosted {
      bitmap[0] := 0x3F;
    }
    forall t | 0 <= t < 4 * bitmap.Length
      ensures States(bitmap[..])[t] == InitialStates(4 * bitmap.Length, selfHosted)[t]
    {
      assert t / 4 < bitmap.Length;
      if t / 4 == 0 && selfHosted {
        assert bitmap[t / 4] == 0x3F;
      } else {
        assert bitmap[t / 4] == 0xFF;
      }
    }
  }

  /* ---------------------------------------------------- pool arithmetic */

  /** Bitmap frames for a pool of n frames at two bits per frame: `n/16384 + (n%16384 > 0)`. */
  function NeededInfoFrames(n: nat): (r: nat)
    ensures r * 16384 >= n
    ensures r == 0 || (r - 1) * 16384 < n
  {
    n / (16 * 1024) + (if n % (16 * 1024) > 0 then 1 else 0)
  }

  /** Number of FREE frames. */
  function CountFree(s: seq<State>): (k: nat)
    ensures k <= |s|
  {
    if s == [] then 0 else (if s[0] == Free then 1 else 0) + CountFree(s[1..])
  }
}
