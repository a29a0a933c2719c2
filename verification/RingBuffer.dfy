/**
 Model of src/common/RingBuffer.h as a channel between one producer and one consumer that
 run concurrently. read() and write() are taken apart into the load of the other side's
 pointer, one step per copied element, and the final store of the own pointer.

 A load of the other side's pointer may return an old value. `produced` and `consumed` count
 all elements ever published and released, so the pointers are these counts modulo the size,
 and an old pointer value is one of a smaller count.
 */
module RingBuffer {
  import opened Arithmetic

  /** _allocBuffer(): the least power of two, from 2 on, that holds sz + wrapElements. */
  method AllocBuffer(sz: int, wrapElements: int) returns (size: int, ghost k: nat)
    ensures size == Pow2(k) && k >= 1 && size >= sz + wrapElements
    ensures k == 1 || Pow2(k - 1) < sz + wrapElements
  {
    var need := sz + wrapElements;
    size, k := 2, 1;
    assert Pow2(1) == 2 * Pow2(0);
    while size < need
      invariant size == Pow2(k) && k >= 1 && (k == 1 || Pow2(k - 1) < need)
      decreases need - size
    {
      size, k := size * 2, k + 1;
    }
  }

  // ----- The pointers -----

  lemma MaskKeeps(x: int, k: nat)
    ensures 0 <= x < Pow2(k) ==> BitAnd(x, Pow2(k) - 1) == x
  {
    if 0 <= x < Pow2(k) {
      AndMask(x, k);
      DivModUnique(x, Pow2(k), 0, x);
    }
  }

  /** write_space() for the own pointer `w` and the pointer `r` of the consumer. */
  function WriteSpace(k: nat, w: int, r: int): (n: int)
    requires 0 <= w < Pow2(k) && 0 <= r < Pow2(k)
    ensures n == Pow2(k) - 1 - (if w >= r then w - r else w - r + Pow2(k))
  {
    hide BitAnd, Pow2;
    var size := Pow2(k);
    MaskKeeps(r - w + size, k);
    if w > r then BitAnd(r - w + size, size - 1) - 1
    else if w < r then r - w - 1
    else size - 1
  }

  /** read_space() for the pointer `w` of the producer and the own pointer `r`. */
  function ReadSpace(k: nat, w: int, r: int): (n: int)
    requires 0 <= w < Pow2(k) && 0 <= r < Pow2(k)
    ensures n == if w >= r then w - r else w - r + Pow2(k)
  {
    hide BitAnd, Pow2;
    var size := Pow2(k);
    MaskKeeps(w - r + size, k);
    if w >= r then w - r else BitAnd(w - r + size, size - 1)
  }

  /** What the spaces mean: the distance of the counts, as long as it is below the size. */
  lemma Spaces(k: nat, produced: int, consumed: int)
    requires 0 <= consumed <= produced < consumed + Pow2(k)
    ensures var w, r := produced % Pow2(k), consumed % Pow2(k);
            WriteSpace(k, w, r) == Pow2(k) - 1 - (produced - consumed) && ReadSpace(k, w, r) == produced - consumed
  {
    ModAdd(consumed, produced - consumed, Pow2(k));
  }

  /** The two pieces into which read() and write() cut a transfer of `n` elements from position `p`. */
  function FirstPiece(k: nat, p: int, n: int): int {
    if p + n > Pow2(k) then Pow2(k) - p else n
  }

  function SecondPiece(k: nat, p: int, n: int): int
    requires p >= 0 && n >= 0
  {
    if p + n > Pow2(k) then BitAnd(p + n, Pow2(k) - 1) else 0
  }

  /** The cell of the j-th element of a transfer whose first piece has n1 elements. */
  function Cell(p: int, n1: int, j: int): int {
    if j < n1 then p + j else j - n1
  }

  /** The pointer that is stored after a transfer. */
  function PointerAfter(k: nat, p: int, n1: int, n2: int): int
    requires p >= 0 && n1 >= 0
  {
    if n2 != 0 then n2 else BitAnd(p + n1, Pow2(k) - 1)
  }

  /** A transfer touches the cells of consecutive counts, and its final pointer is the final count. */
  lemma Transfer(k: nat, count: int, n: int, j: int)
    requires count >= 0 && 0 <= n < Pow2(k) && 0 <= j <= n
    ensures var p := count % Pow2(k);
            var n1, n2 := FirstPiece(k, p, n), SecondPiece(k, p, n);
            && n1 >= 0 && n2 >= 0 && n1 + n2 == n
            && (j < n ==> Cell(p, n1, j) == (count + j) % Pow2(k))
            && PointerAfter(k, p, n1, n2) == (count + n) % Pow2(k)
  {
    var size := Pow2(k);
    var p := count % size;
    ModAdd(count, j, size);
    ModAdd(count, n, size);
    ModAdd(p, n, size);
    DivModUnique(p, size, 0, p);
    AndMask(p + n, k);
    AndMask(p + FirstPiece(k, p, n), k);
  }

  // ----- The two threads -----

  datatype Producer<T> =
    | Ready
    | Copying(p: int, n1: int, n2: int, j: int, src: seq<T>)

  datatype Consumer<T> =
    | Waiting
    | Fetching(p: int, n1: int, n2: int, dest: seq<T>)

  datatype State<T> = State(
    k: nat,                  // size is 2^k
    buf: seq<T>,
    writePtr: int,
    readPtr: int,
    producer: Producer<T>,
    consumer: Consumer<T>,
    produced: int,           // elements published so far
    consumed: int,           // elements released so far
    seenRead: int,           // the latest consumed count the producer has seen
    seenWritten: int,        // the latest produced count the consumer has seen
    sent: seq<T>,            // data accepted by write(), in order
    got: seq<T>)             // data returned by read(), in order

  datatype Step<T> =
    | WriteStart(src: seq<T>, seenRead: int)   // seenRead: the consumed count whose pointer value is loaded
    | WriteElement
    | WriteEnd
    | ReadStart(cnt: nat, seenWritten: int)    // seenWritten: the produced count whose pointer value is loaded
    | ReadElement
    | ReadEnd

  predicate Enabled<T>(s: State<T>, a: Step<T>) {
    match a
    case WriteStart(_, c) => s.producer.Ready? && s.seenRead <= c <= s.consumed && InRange(s)
    case WriteElement =>
      && s.producer.Copying? && 0 <= s.producer.j < s.producer.n1 + s.producer.n2 <= |s.producer.src|
      && 0 <= Cell(s.producer.p, s.producer.n1, s.producer.j) < |s.buf|
    case WriteEnd =>
      && s.producer.Copying? && s.producer.j == s.producer.n1 + s.producer.n2 <= |s.producer.src|
      && s.producer.p >= 0 && s.producer.n1 >= 0 && s.producer.n2 >= 0
    case ReadStart(_, p) => s.consumer.Waiting? && s.seenWritten <= p <= s.produced && InRange(s)
    case ReadElement =>
      && s.consumer.Fetching? && |s.consumer.dest| < s.consumer.n1 + s.consumer.n2
      && 0 <= Cell(s.consumer.p, s.consumer.n1, |s.consumer.dest|) < |s.buf|
    case ReadEnd =>
      && s.consumer.Fetching? && |s.consumer.dest| == s.consumer.n1 + s.consumer.n2
      && s.consumer.p >= 0 && s.consumer.n1 >= 0
  }

  /** The step is the next one of its thread, as far as the thread itself decides. */
  predicate Due<T>(s: State<T>, a: Step<T>) {
    match a
    case WriteStart(_, c) => s.producer.Ready? && s.seenRead <= c <= s.consumed
    case WriteElement => s.producer.Copying? && s.producer.j < s.producer.n1 + s.producer.n2
    case WriteEnd => s.producer.Copying? && s.producer.j == s.producer.n1 + s.producer.n2
    case ReadStart(_, p) => s.consumer.Waiting? && s.seenWritten <= p <= s.produced
    case ReadElement => s.consumer.Fetching? && |s.consumer.dest| < s.consumer.n1 + s.consumer.n2
    case ReadEnd => s.consumer.Fetching? && |s.consumer.dest| == s.consumer.n1 + s.consumer.n2
  }

  predicate InRange<T>(s: State<T>) {
    0 <= s.writePtr < Pow2(s.k) && 0 <= s.readPtr < Pow2(s.k)
  }

  function Apply<T>(s: State<T>, a: Step<T>): State<T>
    requires Enabled(s, a)
  {
    match a
    case WriteStart(src, c) =>
      var free := WriteSpace(s.k, s.writePtr, c % Pow2(s.k));
      if free == 0 then s.(seenRead := c)
      else
        var n := if |src| > free then free else |src|;
        s.(seenRead := c, producer := Copying(s.writePtr, FirstPiece(s.k, s.writePtr, n),
            SecondPiece(s.k, s.writePtr, n), 0, src))
    case WriteElement =>
      var w := s.producer;
      s.(buf := s.buf[Cell(w.p, w.n1, w.j) := w.src[w.j]], producer := w.(j := w.j + 1))
    case WriteEnd =>
      var w := s.producer;
      s.(writePtr := PointerAfter(s.k, w.p, w.n1, w.n2), producer := Ready,
         produced := s.produced + w.n1 + w.n2, sent := s.sent + w.src[..w.n1 + w.n2])
    case ReadStart(cnt, p) =>
      var avail := ReadSpace(s.k, p % Pow2(s.k), s.readPtr);
      if avail == 0 then s.(seenWritten := p)
      else
        var n := if cnt > avail then avail else cnt;
        s.(seenWritten := p,
            consumer := Fetching(s.readPtr, FirstPiece(s.k, s.readPtr, n), SecondPiece(s.k, s.readPtr, n), []))
    case ReadElement =>
      var c := s.consumer;
      s.(consumer := c.(dest := c.dest + [s.buf[Cell(c.p, c.n1, |c.dest|)]]))
    case ReadEnd =>
      var c := s.consumer;
      s.(readPtr := PointerAfter(s.k, c.p, c.n1, c.n2), consumer := Waiting,
         consumed := s.consumed + c.n1 + c.n2, got := s.got + c.dest)
  }

  predicate Initial<T(==)>(s: State<T>) {
    && s.k >= 1 && |s.buf| >= Pow2(s.k) && s.writePtr == s.readPtr == 0 && s.producer == Ready && s.consumer == Waiting
    && s.produced == s.consumed == s.seenRead == s.seenWritten == 0 && s.sent == [] && s.got == []
  }

  predicate IsRun<T>(s: State<T>, steps: seq<Step<T>>)
    decreases |steps|
  {
    steps == [] || (Enabled(s, steps[0]) && IsRun(Apply(s, steps[0]), steps[1..]))
  }

  function Exec<T>(s: State<T>, steps: seq<Step<T>>): State<T>
    requires IsRun(s, steps)
    decreases |steps|
  {
    if steps == [] then s else Exec(Apply(s, steps[0]), steps[1..])
  }

  // ----- Invariant -----

  /** Every element that is published and not yet released is in the cell of its count. */
  ghost predicate Stored<T>(s: State<T>)
    requires |s.sent| == s.produced && 0 <= s.consumed && |s.buf| >= Pow2(s.k)
  {
    forall i | s.consumed <= i < s.produced :: CellHolds(s.buf, s.k, i, s.sent[i])
  }

  ghost predicate CellHolds<T>(buf: seq<T>, k: nat, count: int, x: T)
    requires |buf| >= Pow2(k)
  {
    buf[count % Pow2(k)] == x
  }

  ghost predicate Inv<T>(s: State<T>) {
    var size := Pow2(s.k);
    && |s.buf| >= size
    && 0 <= s.seenRead <= s.consumed <= s.seenWritten <= s.produced < s.seenRead + size
    && s.writePtr == s.produced % size && s.readPtr == s.consumed % size
    && |s.sent| == s.produced && s.got == s.sent[..s.consumed]
    && Stored(s)
    && ProducerOk(s) && ConsumerOk(s)
  }

  ghost predicate ProducerOk<T>(s: State<T>)
    requires |s.buf| >= Pow2(s.k)
  {
    s.producer.Copying? ==>
      var w := s.producer;
      var n := w.n1 + w.n2;
      && w.p == s.writePtr && 0 <= w.j <= n <= |w.src| && s.produced + n < s.seenRead + Pow2(s.k)
      && w.n1 == FirstPiece(s.k, w.p, n) >= 0 && w.p >= 0 && w.n2 == SecondPiece(s.k, w.p, n) >= 0
      && forall i | 0 <= i < w.j :: CellHolds(s.buf, s.k, s.produced + i, w.src[i])
  }

  ghost predicate ConsumerOk<T>(s: State<T>)
  {
    s.consumer.Fetching? ==>
      var c := s.consumer;
      var n := c.n1 + c.n2;
      && c.p == s.readPtr && |c.dest| <= n && 0 <= s.consumed && s.consumed + n <= s.seenWritten <= |s.sent|
      && c.p >= 0 && c.n1 == FirstPiece(s.k, c.p, n) >= 0 && c.n2 == SecondPiece(s.k, c.p, n) >= 0
      && c.dest == s.sent[s.consumed..s.consumed + |c.dest|]
  }

  /** No step is held up by the bounds in Enabled: every access is inside the buffer and the caller's data. */
  lemma NeverBlocked<T>(s: State<T>, a: Step<T>)
    requires Inv(s) && Due(s, a)
    ensures Enabled(s, a)
  {
    hide Pow2, BitAnd;
    match a
    case WriteElement => Transfer(s.k, s.produced, s.producer.n1 + s.producer.n2, s.producer.j);
    case ReadElement => Transfer(s.k, s.consumed, s.consumer.n1 + s.consumer.n2, |s.consumer.dest|);
    case _ =>
  }

  lemma WriteStartKeeps<T>(s: State<T>, src: seq<T>, c: int)
    requires Inv(s) && Enabled(s, WriteStart(src, c))
    ensures Inv(Apply(s, WriteStart(src, c)))
  {
    hide FirstPiece, SecondPiece, PointerAfter, Cell, BitAnd, Pow2, WriteSpace, ReadSpace;
    Spaces(s.k, s.produced, c);
    var free := WriteSpace(s.k, s.writePtr, c % Pow2(s.k));
    var n := if |src| > free then free else |src|;
    Transfer(s.k, s.produced, n, 0);
  }

  lemma WriteElementKeeps<T>(s: State<T>)
    requires Inv(s) && Enabled(s, WriteElement)
    ensures Inv(Apply(s, WriteElement))
  {
    hide FirstPiece, SecondPiece, PointerAfter, Cell, BitAnd, Pow2, WriteSpace, ReadSpace;
    var s', w, size := Apply(s, WriteElement), s.producer, Pow2(s.k);
    Transfer(s.k, s.produced, w.n1 + w.n2, w.j);
    var at := s.produced + w.j;
    forall i | s.consumed <= i < at
      ensures i % size != at % size
    {
      ModDistinct(i, at, size);
    }
    forall i | s.consumed <= i < s.produced
      ensures CellHolds(s'.buf, s.k, i, s.sent[i])
    {
      assert CellHolds(s.buf, s.k, i, s.sent[i]);
    }
    forall i | 0 <= i < w.j + 1
      ensures CellHolds(s'.buf, s.k, s.produced + i, w.src[i])
    {
      if i < w.j { assert CellHolds(s.buf, s.k, s.produced + i, w.src[i]); }
    }
  }

  lemma WriteEndKeeps<T>(s: State<T>)
    requires Inv(s) && Enabled(s, WriteEnd)
    ensures Inv(Apply(s, WriteEnd))
  {
    hide FirstPiece, SecondPiece, PointerAfter, Cell, BitAnd, Pow2, WriteSpace, ReadSpace;
    var s', w := Apply(s, WriteEnd), s.producer;
    var n := w.n1 + w.n2;
    Transfer(s.k, s.produced, n, 0);
    forall i | s'.consumed <= i < s'.produced
      ensures CellHolds(s'.buf, s.k, i, s'.sent[i])
    {
      if i < s.produced {
        assert CellHolds(s.buf, s.k, i, s.sent[i]);
      } else {
        assert CellHolds(s.buf, s.k, s.produced + (i - s.produced), w.src[i - s.produced]);
      }
    }
  }

  lemma ReadStartKeeps<T>(s: State<T>, cnt: nat, p: int)
    requires Inv(s) && Enabled(s, ReadStart(cnt, p))
    ensures Inv(Apply(s, ReadStart(cnt, p)))
  {
    hide FirstPiece, SecondPiece, PointerAfter, Cell, BitAnd, Pow2, WriteSpace, ReadSpace;
    Spaces(s.k, p, s.consumed);
    var avail := ReadSpace(s.k, p % Pow2(s.k), s.readPtr);
    var n := if cnt > avail then avail else cnt;
    Transfer(s.k, s.consumed, n, 0);
  }

  lemma ReadElementKeeps<T>(s: State<T>)
    requires Inv(s) && Enabled(s, ReadElement)
    ensures Inv(Apply(s, ReadElement))
  {
    hide FirstPiece, SecondPiece, PointerAfter, Cell, BitAnd, Pow2, WriteSpace, ReadSpace;
    var c := s.consumer;
    Transfer(s.k, s.consumed, c.n1 + c.n2, |c.dest|);
    assert CellHolds(s.buf, s.k, s.consumed + |c.dest|, s.sent[s.consumed + |c.dest|]);
  }

  lemma ReadEndKeeps<T>(s: State<T>)
    requires Inv(s) && Enabled(s, ReadEnd)
    ensures Inv(Apply(s, ReadEnd))
  {
    hide FirstPiece, SecondPiece, PointerAfter, Cell, BitAnd, Pow2, WriteSpace, ReadSpace;
    var c := s.consumer;
    Transfer(s.k, s.consumed, c.n1 + c.n2, 0);
  }

  lemma StepKeepsInv<T>(s: State<T>, a: Step<T>)
    requires Inv(s) && Enabled(s, a)
    ensures Inv(Apply(s, a))
  {
    hide Inv;
    match a
    case WriteStart(src, c) => WriteStartKeeps(s, src, c);
    case WriteElement => WriteElementKeeps(s);
    case WriteEnd => WriteEndKeeps(s);
    case ReadStart(cnt, p) => ReadStartKeeps(s, cnt, p);
    case ReadElement => ReadElementKeeps(s);
    case ReadEnd => ReadEndKeeps(s);
  }

  lemma {:induction false} RunKeepsInv<T>(s: State<T>, steps: seq<Step<T>>)
    requires Inv(s) && IsRun(s, steps)
    ensures Inv(Exec(s, steps))
    decreases |steps|
  {
    if steps != [] {
      StepKeepsInv(s, steps[0]);
      RunKeepsInv(Apply(s, steps[0]), steps[1..]);
    }
  }

  /** In every interleaving, with whatever old pointer values, the data read is a prefix of the data accepted. */
  lemma ReadIsPrefixOfWritten<T>(s: State<T>, steps: seq<Step<T>>)
    requires Initial(s) && IsRun(s, steps)
    ensures Exec(s, steps).got <= Exec(s, steps).sent
  {
    RunKeepsInv(s, steps);
  }

  // ----- Whole calls -----

  /** A write() accepts all that is free, or all it is given, if the producer sees that `c` elements are released. */
  lemma WriteAccepts<T>(s: State<T>, src: seq<T>, c: int)
    requires Inv(s) && Enabled(s, WriteStart(src, c))
    ensures var free, s' := Pow2(s.k) - 1 - (s.produced - c), Apply(s, WriteStart(src, c));
            && free >= 0
            && (free == 0 ==> s' == s.(seenRead := c))
            && (free > 0 ==>
                  && s' == s.(seenRead := c, producer := s'.producer) && s'.producer.Copying?
                  && s'.producer.src == src && s'.producer.j == 0
                  && s'.producer.n1 + s'.producer.n2 == if |src| < free then |src| else free)
  {
    hide FirstPiece, SecondPiece, PointerAfter, Cell, BitAnd, Pow2, WriteSpace, ReadSpace;
    Spaces(s.k, s.produced, c);
    var free := WriteSpace(s.k, s.writePtr, c % Pow2(s.k));
    Transfer(s.k, s.produced, if |src| > free then free else |src|, 0);
  }

  /** A read() fetches all that is there, or all it asks for, if the consumer sees that `p` elements are published. */
  lemma ReadFetches<T>(s: State<T>, cnt: nat, p: int)
    requires Inv(s) && Enabled(s, ReadStart(cnt, p))
    ensures var avail, s' := p - s.consumed, Apply(s, ReadStart(cnt, p));
            && avail >= 0
            && (avail == 0 ==> s' == s.(seenWritten := p))
            && (avail > 0 ==>
                  && s' == s.(seenWritten := p, consumer := s'.consumer) && s'.consumer.Fetching?
                  && s'.consumer.dest == []
                  && s'.consumer.n1 + s'.consumer.n2 == if cnt < avail then cnt else avail)
  {
    hide FirstPiece, SecondPiece, PointerAfter, Cell, BitAnd, Pow2, WriteSpace, ReadSpace;
    Spaces(s.k, p, s.consumed);
    var avail := ReadSpace(s.k, p % Pow2(s.k), s.readPtr);
    Transfer(s.k, s.consumed, if cnt > avail then avail else cnt, 0);
  }

  predicate NoWriteStart<T>(steps: seq<Step<T>>) {
    forall i | 0 <= i < |steps| :: !steps[i].WriteStart?
  }

  predicate NoReadStart<T>(steps: seq<Step<T>>) {
    forall i | 0 <= i < |steps| :: !steps[i].ReadStart?
  }

  /** Until the next call of write(), a call that is under way accepts its n elements when it returns. */
  lemma {:induction false} WriteRun<T>(s: State<T>, steps: seq<Step<T>>)
    requires IsRun(s, steps) && NoWriteStart(steps)
    ensures var e := Exec(s, steps);
            && (s.producer.Ready? ==> e.producer.Ready? && e.sent == s.sent)
            && (s.producer.Copying? ==>
                  var w := s.producer;
                  && (e.producer.Copying? ==>
                        e.producer.src == w.src && e.producer.n1 + e.producer.n2 == w.n1 + w.n2 && e.sent == s.sent)
                  && (e.producer.Ready? ==> 0 <= w.n1 + w.n2 <= |w.src| && e.sent == s.sent + w.src[..w.n1 + w.n2]))
    decreases |steps|
  {
    if steps != [] {
      hide FirstPiece, SecondPiece, PointerAfter, Cell, BitAnd, Pow2, WriteSpace, ReadSpace;
      assert !steps[0].WriteStart?;
      assert forall i | 0 <= i < |steps[1..]| :: steps[1..][i] == steps[i + 1];
      WriteRun(Apply(s, steps[0]), steps[1..]);
    }
  }

  lemma {:induction false} ReadRun<T>(s: State<T>, steps: seq<Step<T>>)
    requires IsRun(s, steps) && NoReadStart(steps)
    ensures var e := Exec(s, steps);
            && (s.consumer.Waiting? ==> e.consumer.Waiting? && e.got == s.got)
            && (s.consumer.Fetching? ==>
                  var n := s.consumer.n1 + s.consumer.n2;
                  && (e.consumer.Fetching? ==> e.consumer.n1 + e.consumer.n2 == n && e.got == s.got)
                  && (e.consumer.Waiting? ==> s.got <= e.got && |e.got| == |s.got| + n))
    decreases |steps|
  {
    if steps != [] {
      hide FirstPiece, SecondPiece, PointerAfter, Cell, BitAnd, Pow2, WriteSpace, ReadSpace;
      assert !steps[0].ReadStart?;
      assert forall i | 0 <= i < |steps[1..]| :: steps[1..][i] == steps[i + 1];
      ReadRun(Apply(s, steps[0]), steps[1..]);
    }
  }

  /**
   A whole call of write(), with any steps of the consumer in between: when it has returned, exactly the first
   min(|src|, free) elements have been added to what is sent.
   */
  lemma WriteCall<T>(s: State<T>, steps: seq<Step<T>>, src: seq<T>, c: int)
    requires Inv(s) && IsRun(s, steps) && steps != [] && steps[0] == WriteStart(src, c) && NoWriteStart(steps[1..])
    ensures var e, free := Exec(s, steps), Pow2(s.k) - 1 - (s.produced - c);
            && free >= 0 && (free == 0 ==> e.producer.Ready?)
            && e.sent == s.sent + if e.producer.Ready? then src[..if |src| < free then |src| else free] else []
  {
    hide Inv, FirstPiece, SecondPiece, PointerAfter, Cell, BitAnd, Pow2, WriteSpace, ReadSpace;
    WriteAccepts(s, src, c);
    StepKeepsInv(s, steps[0]);
    WriteRun(Apply(s, steps[0]), steps[1..]);
    assert s.sent + [] == s.sent;
  }

  /**
   A whole call of read(), with any steps of the producer in between: when it has returned, it has got exactly the
   next min(cnt, available) elements of what was sent.
   */
  lemma ReadCall<T>(s: State<T>, steps: seq<Step<T>>, cnt: nat, p: int)
    requires Inv(s) && IsRun(s, steps) && steps != [] && steps[0] == ReadStart(cnt, p) && NoReadStart(steps[1..])
    ensures var e, avail := Exec(s, steps), p - s.consumed;
            && avail >= 0 && (avail == 0 ==> e.consumer.Waiting?)
            && var n := if !e.consumer.Waiting? then 0 else if cnt < avail then cnt else avail;
            0 <= s.consumed <= s.consumed + n <= |e.sent| && e.got == s.got + e.sent[s.consumed..s.consumed + n]
  {
    assert s.consumer.Waiting?;
    hide FirstPiece, SecondPiece, PointerAfter, Cell, BitAnd, Pow2, WriteSpace, ReadSpace, Enabled, Apply;
    ReadFetches(s, cnt, p);
    ReadRun(Apply(s, steps[0]), steps[1..]);
    RunKeepsInv(s, steps);
    var e := Exec(s, steps);
    assert |e.got| == e.consumed && |s.got| == s.consumed;
    assert e.got == e.got[..|s.got|] + e.got[|s.got|..];
  }

  /** When both sides are idle and have up to date values, nothing of the capacity is lost. */
  lemma QuiescentSpaces<T>(s: State<T>, steps: seq<Step<T>>)
    requires Initial(s) && IsRun(s, steps)
    ensures var e := Exec(s, steps);
            && InRange(e)
            && ReadSpace(e.k, e.writePtr, e.readPtr) + WriteSpace(e.k, e.writePtr, e.readPtr) == Pow2(e.k) - 1
            && ReadSpace(e.k, e.writePtr, e.readPtr) == |e.sent| - |e.got|
  {
    RunKeepsInv(s, steps);
    var e := Exec(s, steps);
    Spaces(e.k, e.produced, e.consumed);
  }

  /** Everything accepted can be read: a read that sees the latest pointer and asks for enough fetches all of it. */
  lemma NothingIsLost<T>(s: State<T>, steps: seq<Step<T>>, cnt: nat)
    requires Initial(s) && IsRun(s, steps) && Exec(s, steps).consumer.Waiting?
    requires var e := Exec(s, steps); cnt >= |e.sent| - |e.got| > 0
    ensures var e := Exec(s, steps);
            && Enabled(e, ReadStart(cnt, e.produced))
            && var f := Apply(e, ReadStart(cnt, e.produced)).consumer; f.Fetching? && f.n1 + f.n2 == |e.sent| - |e.got|
  {
    RunKeepsInv(s, steps);
    var e := Exec(s, steps);
    Spaces(e.k, e.produced, e.consumed);
    Transfer(e.k, e.consumed, e.produced - e.consumed, 0);
  }
}
