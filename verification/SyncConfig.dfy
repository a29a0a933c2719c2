/**
 Model of src/common/SynchronizedConfig.h: one non real time writer and any number
 of real time readers share two copies of a configuration object.

 The model has one step per atomic load or store, and every thread owns a first-in
 first-out store buffer, so a store becomes visible to the other threads only when it
 drains. A thread fence is a step that is enabled only while the own buffer is empty.
 Draining every store at once gives the sequentially consistent interleavings, so a
 property of all runs here covers those as well.

 Lock stamps are 32-bit integers that wrap around.
 */
module SyncConfig {

  type ReaderId = nat

  // ----- Data model -----

  /** A pending store of the writer. */
  datatype Store<T> = IndexStore(i: int) | DataStore(i: int, v: T)

  datatype ReaderPc =
    | Outside           // no critical region
    | Locking           // Lock(): the stamp is stored, the index is not loaded yet
    | Inside(ref: int)  // Lock() returned a reference to copy `ref`

  /** `lock` is the value in memory, `buf` the stamps this reader stored that did not drain yet. */
  datatype Reader = Reader(pc: ReaderPc, lockCount: int, lock: int, buf: seq<int>)

  datatype WriterPc =
    | Owning                                               // outside SwitchConfig()
    | Fencing                                              // indexAtomic is stored, at the fence
    | Scanning(todo: set<ReaderId>, list: seq<ReaderId>)   // building the list of locking readers
    | Polling(kept: seq<ReaderId>, rest: seq<ReaderId>)    // inside one pass over that list

  datatype State<T> = State(
    readers: map<ReaderId, Reader>,
    prevLock: map<ReaderId, int>,
    index: int,             // indexAtomic in memory
    config: seq<T>,         // config[2] in memory
    updateIndex: int,
    wbuf: seq<Store<T>>,
    wpc: WriterPc)

  /** Which of the two seq_cst fences are present. The source has both. */
  datatype Fences = Fences(inLock: bool, inSwitch: bool)

  datatype Step<T> =
    | LockStore(r: ReaderId)
    | LockLoad(r: ReaderId)
    | Unlock(r: ReaderId)
    | DrainReader(r: ReaderId)
    | WriteData(v: T)
    | DrainWriter
    | SwitchStore
    | SwitchFence
    | ScanReader(r: ReaderId)
    | ScanDone
    | PollReader
    | NextPass
    | SwitchReturn

  /** `lockCount += 2` on a 32-bit int that wraps around. The stamp stays odd, so it is never 0. */
  function NextStamp(lockCount: int): (r: int)
    ensures lockCount % 2 == 1 ==> r % 2 == 1 && r != 0
    ensures -0x8000_0000 <= lockCount < 0x8000_0000 ==> -0x8000_0000 <= r < 0x8000_0000
  {
    if lockCount + 2 >= 0x8000_0000 then lockCount + 2 - 0x1_0000_0000 else lockCount + 2
  }

  const WIDTH := 0x1_0000_0000

  /** The stamp after n more Lock() calls. */
  function StampAfter(lockCount: int, n: nat): int {
    if n == 0 then lockCount else NextStamp(StampAfter(lockCount, n - 1))
  }

  lemma {:induction false} StampIsSum(lockCount: int, n: nat) returns (wraps: nat)
    requires -0x8000_0000 <= lockCount < 0x8000_0000
    ensures var r := StampAfter(lockCount, n);
            -0x8000_0000 <= r < 0x8000_0000 && lockCount + 2 * n == r + wraps * WIDTH
  {
    wraps := 0;
    if n > 0 {
      wraps := StampIsSum(lockCount, n - 1);
      if StampAfter(lockCount, n) < StampAfter(lockCount, n - 1) {
        wraps := wraps + 1;
      }
    }
  }

  /** A region that is entered later has another stamp, so it is not taken for the one a reader was seen in. */
  lemma LaterRegionsDiffer(lockCount: int, n: nat)
    requires -0x8000_0000 <= lockCount < 0x8000_0000 && 0 < n < 0x8000_0000
    ensures StampAfter(lockCount, n) != lockCount
  {
    var wraps := StampIsSum(lockCount, n);
  }

  // ----- Transitions -----

  predicate Enabled<T>(f: Fences, s: State<T>, a: Step<T>) {
    match a
    case LockStore(r) => r in s.readers && s.readers[r].pc == Outside
    case LockLoad(r) => r in s.readers && s.readers[r].pc == Locking && (f.inLock ==> s.readers[r].buf == [])
    case Unlock(r) => r in s.readers && s.readers[r].pc.Inside?
    case DrainReader(r) => r in s.readers && s.readers[r].buf != []
    case WriteData(_) => s.wpc == Owning
    case DrainWriter => s.wbuf != [] && (s.wbuf[0].DataStore? ==> 0 <= s.wbuf[0].i < |s.config|)
    case SwitchStore => s.wpc == Owning
    case SwitchFence => s.wpc == Fencing && (f.inSwitch ==> s.wbuf == [])
    case ScanReader(r) => s.wpc.Scanning? && r in s.wpc.todo && r in s.readers
    case ScanDone => s.wpc.Scanning? && s.wpc.todo == {}
    case PollReader => s.wpc.Polling? && s.wpc.rest != [] && s.wpc.rest[0] in s.readers && s.wpc.rest[0] in s.prevLock
    case NextPass => s.wpc.Polling? && s.wpc.rest == [] && s.wpc.kept != []
    case SwitchReturn => s.wpc.Polling? && s.wpc.rest == [] && s.wpc.kept == []
  }

  /** The step is the next one of its thread, as far as the thread itself decides; a fence waits for its buffer. */
  predicate Due<T>(f: Fences, s: State<T>, a: Step<T>) {
    match a
    case DrainWriter => s.wbuf != []
    case ScanReader(r) => s.wpc.Scanning? && r in s.wpc.todo
    case PollReader => s.wpc.Polling? && s.wpc.rest != []
    case _ => Enabled(f, s, a)
  }

  function Apply<T>(f: Fences, s: State<T>, a: Step<T>): State<T>
    requires Enabled(f, s, a)
  {
    match a
    case LockStore(r) =>
      var rd := s.readers[r];
      var stamp := NextStamp(rd.lockCount);
      s.(readers := s.readers[r := Reader(Locking, stamp, rd.lock, rd.buf + [stamp])])
    case LockLoad(r) =>
      s.(readers := s.readers[r := s.readers[r].(pc := Inside(s.index))])
    case Unlock(r) =>
      var rd := s.readers[r];
      s.(readers := s.readers[r := rd.(pc := Outside, buf := rd.buf + [0])])
    case DrainReader(r) =>
      var rd := s.readers[r];
      s.(readers := s.readers[r := rd.(lock := rd.buf[0], buf := rd.buf[1..])])
    case WriteData(v) =>
      s.(wbuf := s.wbuf + [DataStore(s.updateIndex, v)])
    case DrainWriter =>
      (match s.wbuf[0]
       case IndexStore(i) => s.(index := i, wbuf := s.wbuf[1..])
       case DataStore(i, v) => s.(config := s.config[i := v], wbuf := s.wbuf[1..]))
    case SwitchStore =>
      s.(wbuf := s.wbuf + [IndexStore(s.updateIndex)], wpc := Fencing)
    case SwitchFence =>
      s.(wpc := Scanning(s.readers.Keys, []))
    case ScanReader(r) =>
      var seen := s.readers[r].lock;
      s.(prevLock := s.prevLock[r := seen],
         wpc := Scanning(s.wpc.todo - {r}, if seen != 0 then [r] + s.wpc.list else s.wpc.list))
    case ScanDone =>
      s.(wpc := Polling(s.wpc.list, []))
    case PollReader =>
      var r := s.wpc.rest[0];
      if s.readers[r].lock == s.prevLock[r]
      then s.(wpc := Polling(s.wpc.kept + [r], s.wpc.rest[1..]))
      else s.(wpc := Polling(s.wpc.kept, s.wpc.rest[1..]))      // unlink
    case NextPass =>
      s.(wpc := Polling([], s.wpc.kept))
    case SwitchReturn =>
      s.(updateIndex := 1 - s.updateIndex, wpc := Owning)
  }

  /** The state after construction: index 0 is in use, copy 1 is for update, no reader is locked. */
  predicate Initial<T(==)>(s: State<T>) {
    && s.index == 0 && s.updateIndex == 1 && |s.config| == 2
    && s.wbuf == [] && s.wpc == Owning
    && (forall r | r in s.readers :: s.readers[r] == Reader(Outside, 1, 0, []))
  }

  /** `steps` can be taken one after the other from `s`. */
  predicate IsRun<T>(f: Fences, s: State<T>, steps: seq<Step<T>>)
    decreases |steps|
  {
    steps == [] || (Enabled(f, s, steps[0]) && IsRun(f, Apply(f, s, steps[0]), steps[1..]))
  }

  /** The state in which a run ends. */
  function Exec<T>(f: Fences, s: State<T>, steps: seq<Step<T>>): State<T>
    requires IsRun(f, s, steps)
    decreases |steps|
  {
    if steps == [] then s else Exec(f, Apply(f, s, steps[0]), steps[1..])
  }

  // ----- The safety property -----

  /** Outside SwitchConfig(), no reader holds a reference to the copy the writer may change. */
  predicate Safe<T>(s: State<T>) {
    s.wpc == Owning ==>
      forall r | r in s.readers && s.readers[r].pc.Inside? :: s.readers[r].pc.ref != s.updateIndex
  }

  // ----- Inductive invariant -----

  const SOURCE := Fences(true, true)

  /** The last stamp this reader stored, drained or not. */
  function LastStamp(rd: Reader): int {
    if rd.buf == [] then rd.lock else rd.buf[|rd.buf| - 1]
  }

  predicate ReaderOk(rd: Reader) {
    && rd.lockCount % 2 == 1 && -0x8000_0000 <= rd.lockCount < 0x8000_0000
    && LastStamp(rd) == (if rd.pc == Outside then 0 else rd.lockCount)
    && (rd.pc.Inside? ==> rd.buf == [] && 0 <= rd.pc.ref <= 1)
  }

  /** Only stores to the copy for update, and a store of its index last if `switching`. */
  predicate WriterBufferOk<T>(s: State<T>, switching: bool) {
    forall k | 0 <= k < |s.wbuf| ::
      if switching && k == |s.wbuf| - 1 then s.wbuf[k] == IndexStore(s.updateIndex)
      else s.wbuf[k].DataStore? && s.wbuf[k].i == s.updateIndex
  }

  /** Reader `r` was seen in the region it is still in, and the writer is waiting for it. */
  predicate WaitedFor<T>(s: State<T>, r: ReaderId, list: seq<ReaderId>)
    requires r in s.readers
  {
    r in list && r in s.prevLock && s.prevLock[r] == s.readers[r].lock
  }

  /** Reader `r` is on the list of those that were locked. */
  predicate Listed<T>(s: State<T>, r: ReaderId) {
    r in s.readers && r in s.prevLock && s.prevLock[r] != 0
  }

  predicate OnOldCopy<T>(s: State<T>, r: ReaderId) {
    r in s.readers && s.readers[r].pc == Inside(1 - s.updateIndex)
  }

  ghost predicate WriterOk<T>(s: State<T>) {
    match s.wpc
    case Owning =>
      && WriterBufferOk(s, false) && s.index == 1 - s.updateIndex
      && (forall r | r in s.readers && s.readers[r].pc.Inside? :: s.readers[r].pc.ref == s.index)
    case Fencing =>
      && WriterBufferOk(s, true)
      && s.index == (if s.wbuf == [] then s.updateIndex else 1 - s.updateIndex)
      && (s.wbuf != [] ==> forall r | r in s.readers && s.readers[r].pc.Inside? :: s.readers[r].pc.ref == s.index)
    case Scanning(todo, list) =>
      && s.wbuf == [] && s.index == s.updateIndex && todo <= s.readers.Keys
      && (forall r | r in list :: Listed(s, r) && r !in todo)
      && (forall r | OnOldCopy(s, r) :: r in todo || WaitedFor(s, r, list))
    case Polling(kept, rest) =>
      && s.wbuf == [] && s.index == s.updateIndex
      && (forall r | r in kept || r in rest :: Listed(s, r))
      && (forall r | OnOldCopy(s, r) :: WaitedFor(s, r, kept) || WaitedFor(s, r, rest))
  }

  ghost predicate Inv<T>(s: State<T>) {
    && 0 <= s.updateIndex <= 1 && |s.config| == 2
    && (forall r | r in s.readers :: ReaderOk(s.readers[r]))
    && WriterOk(s)
  }

  /** No step is held up by the domain guards in Enabled. */
  lemma NeverBlocked<T>(s: State<T>, a: Step<T>)
    requires Inv(s) && Due(SOURCE, s, a)
    ensures Enabled(SOURCE, s, a)
  {
    if a.DrainWriter? {
      assert WriterBufferOk(s, s.wpc.Fencing?) || s.wbuf == [];
    } else if a.PollReader? {
      assert s.wpc.rest[0] in s.wpc.rest && Listed(s, s.wpc.rest[0]);
    }
  }

  /** Replacing one reader is harmless if it enters only the current copy and keeps its stamp while inside. */
  lemma ReaderChangeKeepsInv<T>(s: State<T>, r: ReaderId, rd: Reader)
    requires Inv(s) && r in s.readers && ReaderOk(rd)
    requires rd.pc.Inside? ==> rd.pc.ref == s.index || (rd.pc == s.readers[r].pc && rd.lock == s.readers[r].lock)
    ensures Inv(s.(readers := s.readers[r := rd]))
  {
    var s' := s.(readers := s.readers[r := rd]);
    if s.wpc.Scanning? || s.wpc.Polling? {
      forall q | OnOldCopy(s', q)
        ensures OnOldCopy(s, q) && s'.readers[q].lock == s.readers[q].lock
      {
      }
    }
  }

  lemma ReaderStepKeepsInv<T>(s: State<T>, a: Step<T>)
    requires Inv(s) && Enabled(SOURCE, s, a)
    requires a.LockStore? || a.LockLoad? || a.Unlock? || a.DrainReader?
    ensures Inv(Apply(SOURCE, s, a))
  {
    assert ReaderOk(s.readers[a.r]);
    assert 0 <= s.index <= 1;
    ReaderChangeKeepsInv(s, a.r, Apply(SOURCE, s, a).readers[a.r]);
  }

  lemma PollKeepsInv<T>(s: State<T>)
    requires Inv(s) && Enabled(SOURCE, s, PollReader)
    ensures Inv(Apply(SOURCE, s, PollReader))
  {
    var s' := Apply(SOURCE, s, PollReader);
    var kept, rest := s.wpc.kept, s.wpc.rest;
    assert rest == [rest[0]] + rest[1..];
    forall r | r in s'.wpc.kept || r in s'.wpc.rest
      ensures Listed(s', r)
    {
      assert r in kept || r in rest;
      assert Listed(s, r);
    }
    forall r | OnOldCopy(s', r)
      ensures WaitedFor(s', r, s'.wpc.kept) || WaitedFor(s', r, s'.wpc.rest)
    {
      assert OnOldCopy(s, r);
    }
  }

  lemma WriterStepKeepsInv<T>(s: State<T>, a: Step<T>)
    requires Inv(s) && Enabled(SOURCE, s, a)
    requires !(a.LockStore? || a.LockLoad? || a.Unlock? || a.DrainReader?)
    ensures Inv(Apply(SOURCE, s, a))
  {
    var s' := Apply(SOURCE, s, a);
    if a.PollReader? {
      PollKeepsInv(s);
    } else if s'.wpc.Scanning? || s'.wpc.Polling? {
      forall r | OnOldCopy(s', r)
        ensures OnOldCopy(s, r) && s'.readers[r] == s.readers[r]
      {
      }
    } else if a.SwitchReturn? {
      forall r | r in s.readers && s.readers[r].pc.Inside?
        ensures s.readers[r].pc.ref == s.index
      {
        assert !OnOldCopy(s, r) && ReaderOk(s.readers[r]);
      }
    }
  }

  lemma StepKeepsInv<T>(s: State<T>, a: Step<T>)
    requires Inv(s) && Enabled(SOURCE, s, a)
    ensures Inv(Apply(SOURCE, s, a))
  {
    if a.LockStore? || a.LockLoad? || a.Unlock? || a.DrainReader? {
      ReaderStepKeepsInv(s, a);
    } else {
      WriterStepKeepsInv(s, a);
    }
  }

  lemma {:induction false} RunKeepsInv<T>(s: State<T>, steps: seq<Step<T>>)
    requires Inv(s) && IsRun(SOURCE, s, steps)
    ensures Inv(Exec(SOURCE, s, steps))
    decreases |steps|
  {
    if steps != [] {
      StepKeepsInv(s, steps[0]);
      RunKeepsInv(Apply(SOURCE, s, steps[0]), steps[1..]);
    }
  }

  /** In every interleaving, with any number of readers, the writer only owns a copy no reader uses. */
  lemma ExclusiveUpdate<T>(s: State<T>, steps: seq<Step<T>>)
    requires Initial(s) && IsRun(SOURCE, s, steps)
    ensures Safe(Exec(SOURCE, s, steps))
  {
    RunKeepsInv(s, steps);
  }

  // ----- Both fences are needed -----

  lemma {:induction false} AppendStep<T>(f: Fences, s: State<T>, steps: seq<Step<T>>, a: Step<T>)
    requires IsRun(f, s, steps) && Enabled(f, Exec(f, s, steps), a)
    ensures IsRun(f, s, steps + [a])
    ensures Exec(f, s, steps + [a]) == Apply(f, Exec(f, s, steps), a)
    decreases |steps|
  {
    var all := steps + [a];
    if steps == [] {
      assert all[1..] == [];
      assert IsRun(f, Apply(f, s, a), all[1..]);
    } else {
      assert all[1..] == steps[1..] + [a];
      AppendStep(f, Apply(f, s, steps[0]), steps[1..], a);
    }
  }

  /** Without the fence in Lock() the stamp may still sit in the reader's buffer when the writer scans. */
  lemma LockFenceNeeded(f: Fences, s: State<bool>) returns (steps: seq<Step<bool>>)
    requires !f.inLock && Initial(s) && s.readers.Keys == {0}
    ensures IsRun(f, s, steps) && !Safe(Exec(f, s, steps))
  {
    AppendStep(f, s, [], LockStore(0));         steps := [] + [LockStore(0)];
    AppendStep(f, s, steps, LockLoad(0));       steps := steps + [LockLoad(0)];
    AppendStep(f, s, steps, SwitchStore);       steps := steps + [SwitchStore];
    AppendStep(f, s, steps, DrainWriter);       steps := steps + [DrainWriter];
    steps := FinishScan(f, s, steps);
    assert Exec(f, s, steps).readers[0].pc == Inside(0);
  }

  /** Without the fence in SwitchConfig() the new index may still sit in the writer's buffer when it scans. */
  lemma SwitchFenceNeeded(f: Fences, s: State<bool>) returns (steps: seq<Step<bool>>)
    requires !f.inSwitch && Initial(s) && s.readers.Keys == {0}
    ensures IsRun(f, s, steps) && !Safe(Exec(f, s, steps))
  {
    AppendStep(f, s, [], SwitchStore);          steps := [] + [SwitchStore];
    steps := FinishScan(f, s, steps);
    AppendStep(f, s, steps, LockStore(0));      steps := steps + [LockStore(0)];
    AppendStep(f, s, steps, DrainReader(0));    steps := steps + [DrainReader(0)];
    AppendStep(f, s, steps, LockLoad(0));       steps := steps + [LockLoad(0)];
    assert Exec(f, s, steps).readers[0].pc == Inside(0);
  }

  /** A scan that finds the only reader unlocked ends the switch at once. */
  lemma FinishScan(f: Fences, s: State<bool>, steps: seq<Step<bool>>) returns (all: seq<Step<bool>>)
    requires IsRun(f, s, steps)
    requires Enabled(f, Exec(f, s, steps), SwitchFence)
    requires Exec(f, s, steps).readers.Keys == {0} && Exec(f, s, steps).readers[0].lock == 0
    ensures IsRun(f, s, all)
    ensures var e, e' := Exec(f, s, steps), Exec(f, s, all);
            && e'.wpc == Owning && e'.updateIndex == 1 - e.updateIndex
            && e'.readers == e.readers && e'.index == e.index && e'.wbuf == e.wbuf
  {
    AppendStep(f, s, steps, SwitchFence);       all := steps + [SwitchFence];
    AppendStep(f, s, all, ScanReader(0));       all := all + [ScanReader(0)];
    assert Exec(f, s, all).wpc.todo == {};
    AppendStep(f, s, all, ScanDone);            all := all + [ScanDone];
    AppendStep(f, s, all, SwitchReturn);        all := all + [SwitchReturn];
  }

  /** The protocol is safe on all runs if and only if both fences are present. */
  lemma SafeIffFenced(f: Fences)
    ensures (forall s: State<bool>, steps | Initial(s) && IsRun(f, s, steps) :: Safe(Exec(f, s, steps)))
            <==> f.inLock && f.inSwitch
  {
    if f.inLock && f.inSwitch {
      assert f == SOURCE;
      forall s: State<bool>, steps | Initial(s) && IsRun(f, s, steps)
        ensures Safe(Exec(f, s, steps))
      {
        ExclusiveUpdate(s, steps);
      }
    } else {
      var s: State<bool> := State(map[0 := Reader(Outside, 1, 0, [])], map[], 0, [false, false], 1, [], Owning);
      var steps;
      if !f.inLock {
        steps := LockFenceNeeded(f, s);
      } else {
        steps := SwitchFenceNeeded(f, s);
      }
      assert Initial(s) && IsRun(f, s, steps) && !Safe(Exec(f, s, steps));
    }
  }

  // ----- SwitchConfig() returns once the old regions have ended -----

  /** If every listed reader left the region it was seen in, one pass of the writer alone ends the switch. */
  lemma {:induction false} SwitchReturns<T>(s: State<T>) returns (steps: seq<Step<T>>)
    requires s.wpc.Polling? && s.wpc.kept == []
    requires forall r | r in s.wpc.rest :: r in s.readers && r in s.prevLock && s.readers[r].lock != s.prevLock[r]
    ensures IsRun(SOURCE, s, steps) && |steps| == |s.wpc.rest| + 1
    ensures Exec(SOURCE, s, steps) == s.(updateIndex := 1 - s.updateIndex, wpc := Owning)
    decreases |s.wpc.rest|
  {
    if s.wpc.rest == [] {
      steps := [SwitchReturn];
      assert steps[1..] == [];
      assert IsRun(SOURCE, Apply(SOURCE, s, SwitchReturn), steps[1..]);
    } else {
      var tail := SwitchReturns(Apply(SOURCE, s, PollReader));
      steps := [PollReader] + tail;
      assert steps[1..] == tail;
    }
  }

  /** The readers that SwitchConfig() still has to look at or waits for. */
  ghost predicate LooksAt<T>(s: State<T>, r: ReaderId) {
    match s.wpc
    case Scanning(todo, list) => r in todo || r in list
    case Polling(kept, rest) => r in kept || r in rest
    case _ => false
  }

  /**
   From every state inside the scan or the polling loop that satisfies the invariant: once all readers it
   still looks at have unlocked and their stores have drained, the writer alone returns from SwitchConfig().
   */
  lemma {:induction false} SwitchCompletes<T>(s: State<T>) returns (steps: seq<Step<T>>)
    requires Inv(s) && (s.wpc.Scanning? || s.wpc.Polling?)
    requires forall r | LooksAt(s, r) :: r in s.readers && s.readers[r].pc == Outside && s.readers[r].buf == []
    ensures IsRun(SOURCE, s, steps) && forall a | a in steps :: IsWriterMove(a)
    ensures var e := Exec(SOURCE, s, steps);
            e.wpc == Owning && e.updateIndex == 1 - s.updateIndex && e.readers == s.readers
    decreases s.wpc.Scanning?,
              if s.wpc.Scanning? then |s.wpc.todo| else |s.wpc.kept|,
              if s.wpc.Polling? then |s.wpc.rest| else 0
  {
    var a := WriterMove(s);
    var s' := Apply(SOURCE, s, a);
    StepKeepsInv(s, a);
    forall r | LooksAt(s, r)
      ensures s.readers[r].lock == 0
    {
      assert ReaderOk(s.readers[r]);
    }
    assert a.PollReader? ==> s.wpc.rest[0] in s.wpc.rest && Listed(s, s.wpc.rest[0]);
    if a == SwitchReturn {
      steps := [a];
      assert IsRun(SOURCE, s', []);
      assert steps[1..] == [];
    } else {
      var tail := SwitchCompletes(s');
      steps := [a] + tail;
      assert steps[1..] == tail;
    }
  }

  predicate IsWriterMove<T>(a: Step<T>) {
    a.ScanReader? || a.ScanDone? || a.PollReader? || a.NextPass? || a.SwitchReturn?
  }

  /** The next step of the writer inside SwitchConfig(); it scans the readers in any order. */
  ghost function WriterMove<T>(s: State<T>): (a: Step<T>)
    requires Inv(s) && (s.wpc.Scanning? || s.wpc.Polling?)
    ensures Enabled(SOURCE, s, a)
    ensures IsWriterMove(a)
  {
    match s.wpc
    case Scanning(todo, _) => if exists r :: r in todo then (var r :| r in todo; ScanReader(r)) else ScanDone
    case Polling(kept, rest) =>
      assert rest != [] ==> rest[0] in rest && Listed(s, rest[0]);
      if rest != [] then PollReader else if kept != [] then NextPass else SwitchReturn
  }

  // ----- A region that was entered later is not waited for -----

  function Locks<T>(steps: seq<Step<T>>, r: ReaderId): nat {
    if steps == [] then 0
    else Locks(steps[1..], r) + if steps[0].LockStore? && steps[0].r == r then 1 else 0
  }

  lemma {:induction false} StampShift(lockCount: int, n: nat)
    ensures StampAfter(NextStamp(lockCount), n) == StampAfter(lockCount, n + 1)
  {
    if n > 0 {
      StampShift(lockCount, n - 1);
    }
  }

  /** Every Lock() takes the next stamp. */
  lemma {:induction false} LockCountAfter<T>(f: Fences, s: State<T>, steps: seq<Step<T>>, r: ReaderId)
    requires IsRun(f, s, steps) && r in s.readers
    ensures var e := Exec(f, s, steps);
            r in e.readers && e.readers[r].lockCount == StampAfter(s.readers[r].lockCount, Locks(steps, r))
    decreases |steps|
  {
    if steps != [] {
      LockCountAfter(f, Apply(f, s, steps[0]), steps[1..], r);
      StampShift(s.readers[r].lockCount, Locks(steps[1..], r));
    }
  }

  /**
   A reader that was seen in a region, and has locked again since then (fewer than 2^31 times), shows a lock other
   than the one it was seen with, once its stores have drained: the writer does not wait for the new region.
   */
  lemma NewRegionIsNotWaitedFor<T>(s: State<T>, steps: seq<Step<T>>, r: ReaderId)
    requires Inv(s) && IsRun(SOURCE, s, steps) && r in s.readers && s.readers[r].pc != Outside && s.readers[r].buf == []
    requires 0 < Locks(steps, r) < 0x8000_0000
    ensures var e := Exec(SOURCE, s, steps);
            r in e.readers && (e.readers[r].buf == [] ==> e.readers[r].lock != s.readers[r].lock)
  {
    LockCountAfter(SOURCE, s, steps, r);
    hide *;
    RunKeepsInv(s, steps);
    ReaderIsOk(s, r);
    ReaderIsOk(Exec(SOURCE, s, steps), r);
    LaterRegionsDiffer(s.readers[r].lockCount, Locks(steps, r));
  }

  lemma ReaderIsOk<T>(s: State<T>, r: ReaderId)
    requires Inv(s) && r in s.readers
    ensures var rd := s.readers[r];
            && -0x8000_0000 <= rd.lockCount < 0x8000_0000 && rd.lockCount != 0
            && (rd.buf == [] ==> rd.lock == if rd.pc == Outside then 0 else rd.lockCount)
  {
    assert ReaderOk(s.readers[r]);
  }
}
