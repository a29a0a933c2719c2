/**
 Model of the second write protocol of src/common/RingBuffer.h, which disk streams use: the
 buffer has `wrap` cells past its end, a refill is written linearly into them, and the part
 that lies there is then copied to the start of the buffer. The audio thread can so read
 across the end of the buffer without wrapping.

 Pointers are counts modulo the size, as in module RingBuffer, and the producer may see old
 values of the read pointer.
 */
module WrapBuffer {
  import opened Arithmetic
  import opened Strings
  import opened RingBuffer

  /** write_space_to_end_with_wrap() */
  function SpaceToEndWithWrap(size: int, wrap: int, w: int, r: int): int {
    if r > w then r - w - 1
    else if r <= wrap then size - w - 1
    else if r != 0 then size - w + wrap
    else size - w - 1 + wrap
  }

  /** adjust_write_space_to_avoid_boundary() */
  function Adjusted(size: int, wrap: int, w: int, cnt: int, capped: int): int {
    if size <= w + capped < size + wrap then cnt else capped
  }

  /** A refill of n elements: j are written, and `copied` of those in the wrap cells are copied to the start. */
  datatype Filler = Idle | Filling(n: int, j: int, copied: int)

  datatype Stream<T> = Stream(
    k: nat,              // size is 2^k
    wrap: int,
    buf: seq<T>,         // size + wrap cells
    writePtr: int,
    readPtr: int,
    filler: Filler,
    produced: int,
    consumed: int,
    seenRead: int,       // the latest consumed count the producer has seen
    sent: seq<T>)        // all data published, in order

  datatype Event<T> =
    | RefillStart(capped: int, seenRead': int)   // load the read pointer, ask for the space, cap and adjust it
    | FillElement(x: T)                          // the next element is written behind the write pointer
    | CopyElement                                // the next element of the wrap cells is copied to the start
    | Publish                                    // the write pointer is stored
    | Release(cnt: int)                          // increment_read_ptr() by elements that were readable

  function Size<T>(s: Stream<T>): (r: int)
    ensures r >= 1
  {
    Pow2(s.k)
  }

  /** A refill that goes past the end. */
  predicate Wrapping<T>(s: Stream<T>) {
    s.filler.Filling? && s.writePtr + s.filler.n >= Size(s)
  }

  predicate CanHappen<T>(s: Stream<T>, a: Event<T>) {
    match a
    case RefillStart(capped, c) =>
      && s.filler == Idle && s.seenRead <= c <= s.consumed
      && 0 <= capped <= SpaceToEndWithWrap(Size(s), s.wrap, s.writePtr, c % Size(s))
    case FillElement(_) => s.filler.Filling? && s.filler.j < s.filler.n && 0 <= s.writePtr + s.filler.j < |s.buf|
    case CopyElement =>
      && s.filler.Filling? && s.filler.j == s.filler.n
      && 0 <= s.filler.copied < s.writePtr + s.filler.n - Size(s) && Size(s) + s.filler.copied < |s.buf|
    case Publish =>
      && s.filler.Filling? && s.filler.j == s.filler.n && 0 <= s.writePtr <= s.writePtr + s.filler.n <= |s.buf|
      && (Wrapping(s) ==> s.filler.copied == s.writePtr + s.filler.n - Size(s))
    case Release(cnt) => 0 <= cnt <= s.produced - s.consumed && s.readPtr >= 0
  }

  /** The event is the next one of its thread, as far as the thread itself decides. */
  predicate Due<T>(s: Stream<T>, a: Event<T>) {
    match a
    case RefillStart(capped, c) =>
      && s.filler == Idle && s.seenRead <= c <= s.consumed
      && 0 <= capped <= SpaceToEndWithWrap(Size(s), s.wrap, s.writePtr, c % Size(s))
    case FillElement(_) => s.filler.Filling? && s.filler.j < s.filler.n
    case CopyElement =>
      s.filler.Filling? && s.filler.j == s.filler.n && s.filler.copied < s.writePtr + s.filler.n - Size(s)
    case Publish =>
      && s.filler.Filling? && s.filler.j == s.filler.n
      && s.filler.copied >= s.writePtr + s.filler.n - Size(s)
    case Release(cnt) => 0 <= cnt <= s.produced - s.consumed
  }

  function Happen<T>(s: Stream<T>, a: Event<T>): Stream<T>
    requires CanHappen(s, a)
  {
    match a
    case RefillStart(capped, c) =>
      var cnt := SpaceToEndWithWrap(Size(s), s.wrap, s.writePtr, c % Size(s));
      s.(seenRead := c, filler := Filling(Adjusted(Size(s), s.wrap, s.writePtr, cnt, capped), 0, 0))
    case FillElement(x) =>
      s.(buf := s.buf[s.writePtr + s.filler.j := x], filler := s.filler.(j := s.filler.j + 1))
    case CopyElement =>
      var i := s.filler.copied;
      s.(buf := s.buf[i := s.buf[Size(s) + i]], filler := s.filler.(copied := i + 1))
    case Publish =>
      var w, n := s.writePtr, s.filler.n;
      s.(writePtr := if Wrapping(s) then w + n - Size(s) else w + n, filler := Idle,
         produced := s.produced + n, sent := s.sent + s.buf[w..w + n])
    case Release(cnt) =>
      s.(readPtr := BitAnd(s.readPtr + cnt, Size(s) - 1), consumed := s.consumed + cnt)
  }

  predicate Begin<T(==)>(s: Stream<T>) {
    && 0 <= s.wrap < Size(s) && |s.buf| == Size(s) + s.wrap
    && s.writePtr == s.readPtr == 0 && s.filler == Idle && s.produced == s.consumed == s.seenRead == 0 && s.sent == []
  }

  predicate IsHistory<T>(s: Stream<T>, es: seq<Event<T>>)
    decreases |es|
  {
    es == [] || (CanHappen(s, es[0]) && IsHistory(Happen(s, es[0]), es[1..]))
  }

  function Replay<T>(s: Stream<T>, es: seq<Event<T>>): Stream<T>
    requires IsHistory(s, es)
    decreases |es|
  {
    if es == [] then s else Replay(Happen(s, es[0]), es[1..])
  }

  // ----- Invariant -----

  /** A refill that goes past the end fills the wrap cells completely, and starts right of all unread data. */
  ghost predicate FillerOk<T>(s: Stream<T>)
    requires |s.buf| == Size(s) + s.wrap && 0 <= s.wrap < Size(s)
  {
    s.filler.Filling? ==>
      && 0 <= s.filler.j <= s.filler.n
      && 0 <= s.filler.copied <= s.wrap && (s.filler.copied > 0 ==> Wrapping(s) && s.filler.j == s.filler.n)
      && (forall i | 0 <= i < s.filler.copied :: s.buf[i] == s.buf[Size(s) + i])
      && s.produced + s.filler.n < s.seenRead + Size(s)
      && (Wrapping(s) ==> s.writePtr + s.filler.n == Size(s) + s.wrap && s.produced - s.seenRead <= s.writePtr)
  }

  /** The wrap cells mirror the first cells. */
  ghost predicate Mirrored<T>(s: Stream<T>)
    requires |s.buf| == Size(s) + s.wrap && s.wrap >= 0
  {
    forall i | 0 <= i < s.wrap && i < Size(s) :: s.buf[Size(s) + i] == s.buf[i]
  }

  ghost predicate StreamInv<T>(s: Stream<T>) {
    var size := Size(s);
    && 0 <= s.wrap < size && |s.buf| == size + s.wrap
    && 0 <= s.seenRead <= s.consumed <= s.produced < s.seenRead + size
    && s.writePtr == s.produced % size && s.readPtr == s.consumed % size
    && |s.sent| == s.produced
    && (forall i | s.consumed <= i < s.produced :: CellHolds(s.buf, s.k, i, s.sent[i]))
    && FillerOk(s)
    && (s.produced >= size ==> s.writePtr >= s.wrap && (!Wrapping(s) ==> Mirrored(s)))
  }

  /** No event is held up by the bounds in CanHappen: refills stay inside the buffer and its wrap cells. */
  lemma NeverBlocked<T>(s: Stream<T>, a: Event<T>)
    requires StreamInv(s) && Due(s, a)
    ensures CanHappen(s, a)
  {
    hide Pow2;
  }

  lemma RefillStartKeeps<T>(s: Stream<T>, capped: int, c: int)
    requires StreamInv(s) && CanHappen(s, RefillStart(capped, c))
    ensures StreamInv(Happen(s, RefillStart(capped, c)))
  {
    hide Pow2;
    ModAdd(c, s.produced - c, Size(s));
  }

  lemma FillElementKeeps<T>(s: Stream<T>, x: T)
    requires StreamInv(s) && CanHappen(s, FillElement(x))
    ensures StreamInv(Happen(s, FillElement(x)))
  {
    hide Pow2, BitAnd;
    var s', size, at := Happen(s, FillElement(x)), Size(s), s.writePtr + s.filler.j;
    if at < size {
      ModAdd(s.produced, s.filler.j, size);
    }
    forall i | s.consumed <= i < s.produced
      ensures CellHolds(s'.buf, s.k, i, s.sent[i])
    {
      KeptByFill(s, i, x);
    }
  }

  /** An unread cell is not the one that is filled. */
  lemma KeptByFill<T>(s: Stream<T>, i: int, x: T)
    requires StreamInv(s) && CanHappen(s, FillElement(x)) && s.consumed <= i < s.produced
    ensures CellHolds(s.buf[s.writePtr + s.filler.j := x], s.k, i, s.sent[i])
  {
    hide Pow2, Mirrored;
    var size, at := Size(s), s.writePtr + s.filler.j;
    assert CellHolds(s.buf, s.k, i, s.sent[i]);
    if at < size {
      ModAdd(s.produced, s.filler.j, size);
      ModDistinct(i, s.produced + s.filler.j, size);
    }
  }

  lemma CopyElementKeeps<T>(s: Stream<T>)
    requires StreamInv(s) && CanHappen(s, CopyElement)
    ensures StreamInv(Happen(s, CopyElement))
  {
    hide Pow2;
    var s' := Happen(s, CopyElement);
    assert Wrapping(s) && s.filler.copied < s.wrap;
    forall i | s.consumed <= i < s.produced
      ensures CellHolds(s'.buf, s.k, i, s.sent[i])
    {
      assert CellHolds(s.buf, s.k, i, s.sent[i]);
      UnreadIsRight(s, i);
    }
  }

  lemma PublishLinearKeeps<T>(s: Stream<T>)
    requires StreamInv(s) && CanHappen(s, Publish) && !Wrapping(s)
    ensures StreamInv(Happen(s, Publish))
  {
    hide Pow2;
    var s', size, n := Happen(s, Publish), Size(s), s.filler.n;
    ModAdd(s.produced, n, size);
    forall i | s'.consumed <= i < s'.produced
      ensures CellHolds(s'.buf, s.k, i, s'.sent[i])
    {
      if i < s.produced {
        assert CellHolds(s.buf, s.k, i, s.sent[i]);
      } else {
        ModAdd(s.produced, i - s.produced, size);
      }
    }
    CrossedOnce(s.produced, n, size);
  }

  /** A write pointer that was not wrapped tells that the count did not reach the size either. */
  lemma CrossedOnce(produced: int, n: int, size: int)
    requires produced >= 0 && n >= 0 && size > 0 && produced % size + n < size
    ensures produced < size ==> produced + n < size
  {
    if produced < size { DivModUnique(produced, size, 0, produced); }
  }

  lemma PublishWrapKeeps<T>(s: Stream<T>)
    requires StreamInv(s) && CanHappen(s, Publish) && Wrapping(s)
    ensures StreamInv(Happen(s, Publish))
    ensures Happen(s, Publish).writePtr == s.wrap && Mirrored(Happen(s, Publish))
  {
    hide Pow2;
    var s', size := Happen(s, Publish), Size(s);
    ModAdd(s.produced, s.filler.n, size);
    ModAdd(s.produced - s.writePtr, s.writePtr, size);
    forall i | s'.consumed <= i < s'.produced
      ensures CellHolds(s'.buf, s.k, i, s'.sent[i])
    {
      PublishedCell(s, i);
    }
  }

  /** The data of a wrapping refill is in the cells of its counts. */
  lemma PublishedCell<T>(s: Stream<T>, i: int)
    requires StreamInv(s) && CanHappen(s, Publish) && Wrapping(s) && s.consumed <= i < s.produced + s.filler.n
    ensures CellHolds(s.buf, s.k, i, (s.sent + s.buf[s.writePtr..s.writePtr + s.filler.n])[i])
  {
    hide Pow2, Mirrored;
    if i < s.produced {
      assert CellHolds(s.buf, s.k, i, s.sent[i]);
    } else {
      ModAdd(s.produced, i - s.produced, Size(s));
    }
  }

  /** While a wrapping refill is under way, unread data lies between the wrap cells' image and the write pointer. */
  lemma UnreadIsRight<T>(s: Stream<T>, i: int)
    requires StreamInv(s) && Wrapping(s) && s.consumed <= i < s.produced
    ensures i % Size(s) == s.writePtr - (s.produced - i) && i % Size(s) > s.wrap
  {
    hide Pow2;
    ModAdd(i, s.produced - i, Size(s));
  }

  lemma ReleaseKeeps<T>(s: Stream<T>, cnt: int)
    requires StreamInv(s) && CanHappen(s, Release(cnt))
    ensures StreamInv(Happen(s, Release(cnt)))
  {
    hide Pow2, BitAnd;
    AndMask(s.readPtr + cnt, s.k);
    ModAdd(s.consumed, cnt, Size(s));
    ModAdd(s.readPtr, cnt, Size(s));
    DivModUnique(s.readPtr, Size(s), 0, s.readPtr);
  }

  lemma EventKeepsInv<T>(s: Stream<T>, a: Event<T>)
    requires StreamInv(s) && CanHappen(s, a)
    ensures StreamInv(Happen(s, a))
  {
    hide StreamInv;
    match a
    case RefillStart(capped, c) => RefillStartKeeps(s, capped, c);
    case FillElement(x) => FillElementKeeps(s, x);
    case CopyElement => CopyElementKeeps(s);
    case Publish => if Wrapping(s) { PublishWrapKeeps(s); } else { PublishLinearKeeps(s); }
    case Release(cnt) => ReleaseKeeps(s, cnt);
  }

  lemma {:induction false} HistoryKeepsInv<T>(s: Stream<T>, es: seq<Event<T>>)
    requires StreamInv(s) && IsHistory(s, es)
    ensures StreamInv(Replay(s, es))
    decreases |es|
  {
    if es != [] {
      EventKeepsInv(s, es[0]);
      HistoryKeepsInv(Happen(s, es[0]), es[1..]);
    }
  }

  // ----- Main results -----

  /** At any time, a linear read of unread elements that goes up to the last wrap cell finds the ring's content. */
  lemma LinearReadIsRingContent<T>(s: Stream<T>, es: seq<Event<T>>, cnt: int)
    requires Begin(s) && IsHistory(s, es)
    requires var e := Replay(s, es); 0 <= cnt <= e.produced - e.consumed && e.readPtr + cnt <= Size(e) + e.wrap
    ensures var e := Replay(s, es);
            && 0 <= e.readPtr <= e.readPtr + cnt <= |e.buf| && 0 <= e.consumed <= e.consumed + cnt <= |e.sent|
            && e.buf[e.readPtr..e.readPtr + cnt] == e.sent[e.consumed..e.consumed + cnt]
  {
    HistoryKeepsInv(s, es);
    LinearRead(Replay(s, es), cnt);
  }

  lemma LinearRead<T>(s: Stream<T>, cnt: int)
    requires StreamInv(s) && 0 <= cnt <= s.produced - s.consumed && s.readPtr + cnt <= Size(s) + s.wrap
    ensures 0 <= s.readPtr && s.buf[s.readPtr..s.readPtr + cnt] == s.sent[s.consumed..s.consumed + cnt]
  {
    var a, b := s.buf[s.readPtr..s.readPtr + cnt], s.sent[s.consumed..s.consumed + cnt];
    forall j | 0 <= j < |a|
      ensures a[j] == b[j]
    {
      LinearCell(s, j);
    }
  }

  lemma LinearCell<T>(s: Stream<T>, j: int)
    requires StreamInv(s) && 0 <= j < s.produced - s.consumed && s.readPtr + j < Size(s) + s.wrap
    ensures 0 <= s.readPtr && s.buf[s.readPtr + j] == s.sent[s.consumed + j]
  {
    hide Pow2;
    var size, r := Size(s), s.readPtr;
    assert CellHolds(s.buf, s.k, s.consumed + j, s.sent[s.consumed + j]);
    ModAdd(s.consumed, j, size);
    if r + j >= size {
      CountReached(s.consumed, j, size);
      BehindTheEnd(s, j);
    }
  }

  /** A read past the end never meets a wrapping refill. */
  lemma BehindTheEnd<T>(s: Stream<T>, j: int)
    requires StreamInv(s) && 0 <= j < s.produced - s.consumed
    ensures s.readPtr + j >= Size(s) ==> !Wrapping(s)
  {
    hide Pow2;
    if Wrapping(s) {
      UnreadIsRight(s, s.consumed);
    }
  }

  lemma CountReached(consumed: int, j: int, size: int)
    requires consumed >= 0 && 0 <= j && size > 0 && consumed % size + j >= size
    ensures consumed + j >= size
  {
    if consumed < size { DivModUnique(consumed, size, 0, consumed); }
  }

  /** Every write that wraps lands the write pointer exactly behind the copied wrap cells, which then are a mirror. */
  lemma WrapLandsExactly<T>(s: Stream<T>, es: seq<Event<T>>)
    requires Begin(s) && IsHistory(s, es) && CanHappen(Replay(s, es), Publish) && Wrapping(Replay(s, es))
    ensures var e := Happen(Replay(s, es), Publish);
            e.writePtr == e.wrap && |e.buf| == Size(e) + e.wrap && e.wrap >= 0 && Mirrored(e)
  {
    HistoryKeepsInv(s, es);
    PublishWrapKeeps(Replay(s, es));
  }

  /** From the first wrap on, the mirror is there whenever no wrapping refill is under way. */
  lemma MirrorStays<T>(s: Stream<T>, es: seq<Event<T>>)
    requires Begin(s) && IsHistory(s, es)
    ensures var e := Replay(s, es);
            |e.buf| == Size(e) + e.wrap && e.wrap >= 0 && (|e.sent| >= Size(e) && !Wrapping(e) ==> Mirrored(e))
  {
    HistoryKeepsInv(s, es);
  }

  /** No refill touches an element that is not released: what was published is still there to be read. */
  lemma NoUnreadOverwritten<T>(s: Stream<T>, es: seq<Event<T>>, i: int)
    requires Begin(s) && IsHistory(s, es)
    requires Replay(s, es).consumed <= i < Replay(s, es).produced
    ensures var e := Replay(s, es);
            0 <= i < |e.sent| && |e.buf| >= Size(e) && e.buf[i % Size(e)] == e.sent[i]
  {
    HistoryKeepsInv(s, es);
    var e := Replay(s, es);
    assert CellHolds(e.buf, e.k, i, e.sent[i]);
  }

  // ----- What a refill is given -----

  /**
   A refill of n elements from w on is allowed if it stays before the read pointer and before the end, or if it
   fills all wrap cells and the write pointer then comes to stand before the read pointer.
   */
  predicate Allowed(size: int, wrap: int, w: int, r: int, n: int) {
    n >= 0 && if r > w then w + n < r else w + n < size || (w + n == size + wrap && wrap < r)
  }

  lemma SpaceIsLargestAllowed(size: int, wrap: int, w: int, r: int)
    requires 0 <= wrap < size && 0 <= w < size && 0 <= r < size
    ensures Allowed(size, wrap, w, r, SpaceToEndWithWrap(size, wrap, w, r))
    ensures forall n | Allowed(size, wrap, w, r, n) :: n <= SpaceToEndWithWrap(size, wrap, w, r)
  {
  }

  /** The adjusted count is the least allowed one that is not below the capped count. */
  lemma AdjustedIsLeastAllowed(size: int, wrap: int, w: int, r: int, capped: int)
    requires 0 <= wrap < size && 0 <= w < size && 0 <= r < size
    requires 0 <= capped <= SpaceToEndWithWrap(size, wrap, w, r)
    ensures var n := Adjusted(size, wrap, w, SpaceToEndWithWrap(size, wrap, w, r), capped);
            && n >= capped && Allowed(size, wrap, w, r, n)
            && forall m | m >= capped && Allowed(size, wrap, w, r, m) :: n <= m
  {
  }

  /** With the whole space, a refill with the read pointer behind the wrap cells ends exactly behind these. */
  lemma WholeSpaceWraps<T>(s: Stream<T>, c: int)
    requires StreamInv(s) && s.filler == Idle && s.seenRead <= c <= s.consumed
    requires s.wrap < c % Size(s) <= s.writePtr
    ensures var a := RefillStart(Size(s) + s.wrap - s.writePtr, c);
            && CanHappen(s, a) && Happen(s, a).filler == Filling(Size(s) + s.wrap - s.writePtr, 0, 0)
            && Wrapping(Happen(s, a))
  {
  }

  predicate NoRefillStart<T>(es: seq<Event<T>>) {
    forall i | 0 <= i < |es| :: !es[i].RefillStart?
  }

  /** The elements the producer fills in, in order. */
  function Filled<T>(es: seq<Event<T>>): seq<T> {
    if es == [] then [] else (match es[0] case FillElement(x) => [x] case _ => []) + Filled(es[1..])
  }

  /** How many elements the consumer releases. */
  function Released<T>(es: seq<Event<T>>): int {
    if es == [] then 0 else (match es[0] case Release(cnt) => cnt case _ => 0) + Released(es[1..])
  }

  /** The elements of the refill that are filled in already. */
  function Pending<T>(s: Stream<T>): seq<T> {
    if s.filler.Filling? && 0 <= s.writePtr <= s.writePtr + s.filler.j <= |s.buf|
    then s.buf[s.writePtr..s.writePtr + s.filler.j] else []
  }

  lemma PendingStep<T>(s: Stream<T>, a: Event<T>)
    requires StreamInv(s) && CanHappen(s, a) && !a.RefillStart?
    ensures var s' := Happen(s, a);
            s'.sent + Pending(s') == s.sent + Pending(s) + match a case FillElement(x) => [x] case _ => []
    ensures var s' := Happen(s, a);
            s'.filler.Filling? ==> s'.sent == s.sent && s.filler.Filling? && s'.filler.n == s.filler.n
    ensures var s' := Happen(s, a);
            && s'.produced == s.produced + (if a.Publish? then s.filler.n else 0)
            && (a.Publish? ==> s'.filler.Idle?) && (s'.filler.Idle? ==> a.Publish? || s.filler.Idle?)
  {
    hide Pow2, BitAnd, Mirrored, CellHolds;
    var s' := Happen(s, a);
    if a.CopyElement? {
      assert s.filler.copied < s.wrap < s.writePtr;
      assert Pending(s') == Pending(s);
    } else if a.FillElement? {
      assert Pending(s') == Pending(s) + [a.x];
    }
  }

  lemma StreamCounts<T>(s: Stream<T>)
    requires StreamInv(s)
    ensures |s.sent| == s.produced
  {
  }

  /** Until the next refill starts, the elements filled in are those that are published. */
  lemma {:induction false} FillRun<T>(s: Stream<T>, es: seq<Event<T>>)
    requires StreamInv(s) && IsHistory(s, es) && NoRefillStart(es)
    ensures var e := Replay(s, es);
            && e.sent + Pending(e) == s.sent + Pending(s) + Filled(es)
            && (s.filler.Idle? ==> e.filler.Idle? && e.sent == s.sent)
            && (s.filler.Filling? ==>
                  if e.filler.Idle? then |e.sent| == |s.sent| + s.filler.n
                  else e.sent == s.sent && e.filler.n == s.filler.n)
    decreases |es|
  {
    if es == [] {
      assert Filled(es) == [];
    } else {
      var a, rest := es[0], es[1..];
      var s', f := Happen(s, a), match a case FillElement(x) => [x] case _ => [];
      assert !a.RefillStart?;
      assert forall i | 0 <= i < |rest| :: rest[i] == es[i + 1];
      assert CanHappen(s, a) && IsHistory(s', rest) && Replay(s, es) == Replay(s', rest);
      assert Filled(es) == f + Filled(rest);
      hide *;
      EventKeepsInv(s, a);
      PendingStep(s, a);
      StreamCounts(s);
      StreamCounts(s');
      FillRun(s', rest);
      JoinAssoc(s.sent + Pending(s), f, Filled(rest));
    }
  }

  lemma RefillStarts<T>(s: Stream<T>, capped: int, c: int)
    requires StreamInv(s) && CanHappen(s, RefillStart(capped, c))
    ensures var s', size, w, r := Happen(s, RefillStart(capped, c)), Size(s), s.writePtr, c % Size(s);
            && s'.filler.Filling? && s' == s.(seenRead := c, filler := Filling(s'.filler.n, 0, 0)) && Pending(s') == []
            && s'.filler.n >= capped && Allowed(size, s.wrap, w, r, s'.filler.n)
            && forall m | m >= capped && Allowed(size, s.wrap, w, r, m) :: s'.filler.n <= m
  {
    hide Pow2, Mirrored, CellHolds;
    AdjustedIsLeastAllowed(Size(s), s.wrap, s.writePtr, c % Size(s), capped);
  }

  /**
   A whole refill, with any events of the consumer in between: the least allowed number of elements from the
   capped count on is filled in and published in order.
   */
  lemma RefillPublishes<T>(s: Stream<T>, es: seq<Event<T>>, capped: int, c: int)
    requires StreamInv(s) && IsHistory(s, es) && es != []
    requires es[0] == RefillStart(capped, c) && NoRefillStart(es[1..]) && Replay(s, es).filler.Idle?
    ensures Replay(s, es).sent == s.sent + Filled(es)
    ensures var size, w, r, n := Size(s), s.writePtr, c % Size(s), |Filled(es)|;
            && n >= capped && Allowed(size, s.wrap, w, r, n)
            && forall m | m >= capped && Allowed(size, s.wrap, w, r, m) :: n <= m
  {
    var a, rest := es[0], es[1..];
    var s', e := Happen(s, a), Replay(s, es);
    RefillStarts(s, capped, c);
    EventKeepsInv(s, a);
    assert CanHappen(s, a) && IsHistory(s', rest) && e == Replay(s', rest);
    assert Filled(es) == [] + Filled(rest) == Filled(rest);
    assert Pending(e) == [];
    hide *;
    FillRun(s', rest);
    assert e.sent == e.sent + [] && s.sent + [] == s.sent;
    assert e.sent == s.sent + Filled(es);
  }

  lemma {:induction false} ConsumedIsReleased<T>(s: Stream<T>, es: seq<Event<T>>)
    requires IsHistory(s, es)
    ensures Replay(s, es).consumed == s.consumed + Released(es)
    decreases |es|
  {
    if es != [] {
      ConsumedIsReleased(Happen(s, es[0]), es[1..]);
    }
  }
}
