/**
 Model of BackBuffer / FrontBuffer / DoubleBuffer (src/common/SynchronizedConfig.h) and of
 ConditionServer (src/common/ConditionServer.cpp and .h), which drives the same protocol
 with a bool: a critical section of the non real time side edits the copy for update,
 switches, and copies the result to the other copy, all under one mutex.

 The ghost log holds the committed versions in order. A version is committed when the
 store of the new index becomes visible.
 */
module DoubleBuffer {
  import opened SyncConfig

  // ----- Data model -----

  datatype Phase<T> =
    | Idle                    // the mutex is free
    | Editing                 // between beginSync() and endSync(), or inside Push() before the switch
    | Switching(clone: T)     // inside SwitchConfig()
    | Copying(clone: T)       // SwitchConfig() returned, the clone is not assigned yet
    | Held                    // both copies are assigned, the mutex is still locked

  datatype System<T> = System(
    s: State<T>,
    phase: Phase<T>,
    log: seq<T>,                // committed versions, oldest first
    seen: map<ReaderId, nat>)   // the version each reader found in its latest Lock()

  datatype Event<T> =
    | BeginSync          // mutex.Lock()
    | Resume             // PushAndUnlock() with bAlreadyLocked: the mutex is still held from Push()
    | Edit(v: T)         // assignment to the copy for update
    | EndSync            // clone the copy for update and enter SwitchConfig()
    | CopyBack           // SwitchConfig() = clone
    | Release            // mutex.Unlock()
    | Inner(a: Step<T>)  // any other step of SyncConfig

  function Last<A>(q: seq<A>): A
    requires q != []
  {
    q[|q| - 1]
  }

  /** The writer reads its own copy through its store buffer. */
  predicate CanRead<T>(s: State<T>) {
    0 <= s.updateIndex < |s.config| && (s.wbuf != [] ==> Last(s.wbuf).DataStore?)
  }

  function BackCopy<T>(s: State<T>): T
    requires CanRead(s)
  {
    if s.wbuf == [] then s.config[s.updateIndex] else Last(s.wbuf).v
  }

  // ----- Transitions -----

  predicate CanStep<T>(d: System<T>, e: Event<T>) {
    match e
    case BeginSync => d.phase == Idle
    case Resume => d.phase == Held
    case Edit(v) => d.phase == Editing && Enabled(SOURCE, d.s, WriteData(v))
    case EndSync => d.phase == Editing && CanRead(d.s) && Enabled(SOURCE, d.s, SwitchStore)
    case CopyBack => d.phase.Copying? && Enabled(SOURCE, d.s, WriteData(d.phase.clone))
    case Release => d.phase == Held && d.s.wbuf == []     // unlocking a mutex is a full barrier
    case Inner(a) =>
      && Enabled(SOURCE, d.s, a) && !a.WriteData? && !a.SwitchStore?
      && (a.SwitchReturn? ==> d.phase.Switching?)
      && (a.DrainWriter? && d.s.wbuf[0].IndexStore? ==> d.phase.Switching?)
      && (a.LockLoad? ==> d.log != [])
  }

  function After<T>(d: System<T>, e: Event<T>): System<T>
    requires CanStep(d, e)
  {
    match e
    case BeginSync => d.(phase := Editing)
    case Resume => d.(phase := Editing)
    case Edit(v) => d.(s := Apply(SOURCE, d.s, WriteData(v)))
    case EndSync => d.(s := Apply(SOURCE, d.s, SwitchStore), phase := Switching(BackCopy(d.s)))
    case CopyBack => d.(s := Apply(SOURCE, d.s, WriteData(d.phase.clone)), phase := Held)
    case Release => d.(phase := Idle)
    case Inner(a) =>
      var s' := Apply(SOURCE, d.s, a);
      match a {
        case SwitchReturn => d.(s := s', phase := Copying(d.phase.clone))
        case DrainWriter => d.(s := s', log := if d.s.wbuf[0].IndexStore? then d.log + [d.phase.clone] else d.log)
        case LockLoad(r) => d.(s := s', seen := d.seen[r := |d.log| - 1])
        case _ => d.(s := s')
      }
  }

  predicate Start<T(==)>(d: System<T>) {
    Initial(d.s) && d.s.config[0] == d.s.config[1] && d.phase == Idle && d.log == [d.s.config[0]] && d.seen == map[]
  }

  predicate IsHistory<T>(d: System<T>, es: seq<Event<T>>)
    decreases |es|
  {
    es == [] || (CanStep(d, es[0]) && IsHistory(After(d, es[0]), es[1..]))
  }

  function Replay<T>(d: System<T>, es: seq<Event<T>>): System<T>
    requires IsHistory(d, es)
    decreases |es|
  {
    if es == [] then d else Replay(After(d, es[0]), es[1..])
  }

  // ----- Inductive invariant -----

  predicate PhaseOk<T(==)>(d: System<T>)
    requires d.log != [] && |d.s.config| == 2 && 0 <= d.s.updateIndex <= 1
  {
    var s := d.s;
    match d.phase
    case Idle => s.wpc == Owning && s.wbuf == [] && s.config[s.updateIndex] == Last(d.log)
    case Editing => s.wpc == Owning
    case Held => s.wpc == Owning && CanRead(s) && BackCopy(s) == Last(d.log)
    case Copying(clone) => s.wpc == Owning && s.wbuf == [] && clone == Last(d.log)
    case Switching(clone) =>
      && s.wpc != Owning
      && (s.wbuf == [] ==> clone == Last(d.log))
      && (|s.wbuf| == 1 ==> s.config[s.updateIndex] == clone)
      && (|s.wbuf| > 1 ==> s.wbuf[|s.wbuf| - 2] == DataStore(s.updateIndex, clone))
  }

  /** A reader inside a region reads the version it found, and one on the current copy found the latest. */
  predicate RegionOk<T(==)>(d: System<T>, r: ReaderId)
    requires r in d.s.readers && |d.s.config| == 2
  {
    var pc := d.s.readers[r].pc;
    pc.Inside? ==>
      && r in d.seen && d.seen[r] < |d.log| && 0 <= pc.ref <= 1
      && d.s.config[pc.ref] == d.log[d.seen[r]]
      && (pc.ref == d.s.index ==> d.seen[r] == |d.log| - 1)
  }

  ghost predicate SystemInv<T>(d: System<T>) {
    && Inv(d.s) && d.log != []
    && 0 <= d.s.index <= 1
    && d.s.config[d.s.index] == Last(d.log)
    && (forall r | r in d.seen :: d.seen[r] < |d.log|)
    && PhaseOk(d)
    && (forall r | r in d.s.readers :: RegionOk(d, r))
  }

  /** The event is the next one of its thread, as far as the thread itself decides. */
  predicate Due<T>(d: System<T>, e: Event<T>) {
    match e
    case BeginSync => d.phase == Idle
    case Resume => d.phase == Held
    case Edit(_) => d.phase == Editing
    case EndSync => d.phase == Editing
    case CopyBack => d.phase.Copying?
    case Release => d.phase == Held && d.s.wbuf == []
    case Inner(a) => SyncConfig.Due(SOURCE, d.s, a) && !a.WriteData? && !a.SwitchStore?
  }

  /** No event is held up by the guards in CanStep. */
  lemma NeverBlocked<T>(d: System<T>, e: Event<T>)
    requires SystemInv(d) && Due(d, e)
    ensures CanStep(d, e)
  {
    if e.Inner? {
      SyncConfig.NeverBlocked(d.s, e.a);
    }
    if d.s.wpc == Owning {
      assert WriterBufferOk(d.s, false);
    } else if d.s.wpc == Fencing {
      assert WriterBufferOk(d.s, true);
    }
  }

  lemma ReaderEventKeepsInv<T>(d: System<T>, a: Step<T>)
    requires SystemInv(d) && CanStep(d, Inner(a))
    requires a.LockStore? || a.LockLoad? || a.Unlock? || a.DrainReader?
    ensures SystemInv(After(d, Inner(a)))
  {
    var d' := After(d, Inner(a));
    StepKeepsInv(d.s, a);
    forall r | r in d'.s.readers
      ensures RegionOk(d', r)
    {
      assert RegionOk(d, r) && ReaderOk(d'.s.readers[r]);
    }
  }

  lemma DrainKeepsInv<T>(d: System<T>)
    requires SystemInv(d) && CanStep(d, Inner(DrainWriter))
    ensures SystemInv(After(d, Inner(DrainWriter)))
  {
    var d' := After(d, Inner(DrainWriter));
    StepKeepsInv(d.s, DrainWriter);
    var w := d.s.wbuf;
    assert WriterBufferOk(d.s, d.phase.Switching?);
    assert w[0].IndexStore? <==> d.phase.Switching? && |w| == 1;
    assert w[0].DataStore? ==> w[0].i == d.s.updateIndex;
    forall r | r in d'.s.readers
      ensures RegionOk(d', r)
    {
      assert RegionOk(d, r);
    }
  }

  /** Regions depend on the two copies, the index and the readers only. */
  lemma RegionsKept<T>(d: System<T>, d': System<T>)
    requires |d.s.config| == 2 && forall r | r in d.s.readers :: RegionOk(d, r)
    requires d'.s.readers == d.s.readers && d'.s.config == d.s.config && d'.s.index == d.s.index
    requires d'.seen == d.seen && d'.log == d.log
    ensures forall r | r in d'.s.readers :: RegionOk(d', r)
  {
    forall r | r in d'.s.readers
      ensures RegionOk(d', r)
    {
      assert RegionOk(d, r);
    }
  }

  predicate IsSwitchStep<T>(a: Step<T>) {
    a.SwitchFence? || a.ScanReader? || a.ScanDone? || a.PollReader? || a.NextPass? || a.SwitchReturn?
  }

  lemma SwitchEventKeepsInv<T>(d: System<T>, a: Step<T>)
    requires SystemInv(d) && CanStep(d, Inner(a)) && IsSwitchStep(a)
    ensures SystemInv(After(d, Inner(a)))
  {
    StepKeepsInv(d.s, a);
    RegionsKept(d, After(d, Inner(a)));
    hide RegionOk;
  }

  /** Lock and unlock of the mutex, assignments to the copy for update, and the begin of the switch. */
  lemma DataEventKeepsInv<T>(d: System<T>, e: Event<T>)
    requires SystemInv(d) && CanStep(d, e) && !e.Inner?
    ensures SystemInv(After(d, e))
  {
    RegionsKept(d, After(d, e));
    hide RegionOk;
    match e
    case Edit(v) => StepKeepsInv(d.s, WriteData(v));
    case EndSync =>
      StepKeepsInv(d.s, SwitchStore);
      assert WriterBufferOk(d.s, false);
    case CopyBack => StepKeepsInv(d.s, WriteData(d.phase.clone));
    case _ =>
  }

  lemma WriterEventKeepsInv<T>(d: System<T>, e: Event<T>)
    requires SystemInv(d) && CanStep(d, e) && (e.Inner? ==> IsSwitchStep(e.a))
    ensures SystemInv(After(d, e))
  {
    hide SystemInv;
    if e.Inner? {
      SwitchEventKeepsInv(d, e.a);
    } else {
      DataEventKeepsInv(d, e);
    }
  }

  lemma EventKeepsInv<T>(d: System<T>, e: Event<T>)
    requires SystemInv(d) && CanStep(d, e)
    ensures SystemInv(After(d, e))
  {
    if e.Inner? && (e.a.LockStore? || e.a.LockLoad? || e.a.Unlock? || e.a.DrainReader?) {
      ReaderEventKeepsInv(d, e.a);
    } else if e == Inner(DrainWriter) {
      DrainKeepsInv(d);
    } else {
      WriterEventKeepsInv(d, e);
    }
  }

  lemma {:induction false} HistoryKeepsInv<T>(d: System<T>, es: seq<Event<T>>)
    requires SystemInv(d) && IsHistory(d, es)
    ensures SystemInv(Replay(d, es))
    decreases |es|
  {
    if es != [] {
      EventKeepsInv(d, es[0]);
      HistoryKeepsInv(After(d, es[0]), es[1..]);
    }
  }

  lemma StartIsOk<T>(d: System<T>)
    requires Start(d)
    ensures SystemInv(d)
  {
  }

  // ----- Main results -----

  /** Outside a back-buffer section both copies equal the latest committed version. */
  lemma CopiesAgreeWhenIdle<T>(d: System<T>, es: seq<Event<T>>)
    requires Start(d) && IsHistory(d, es)
    ensures var d' := Replay(d, es);
            d'.phase == Idle ==>
              |d'.s.config| == 2 && d'.log != [] && d'.s.config == [Last(d'.log), Last(d'.log)]
  {
    StartIsOk(d);
    HistoryKeepsInv(d, es);
    var d' := Replay(d, es);
    if d'.phase == Idle {
      assert d'.s.index == 1 - d'.s.updateIndex;
    }
  }

  lemma RegionStep<T>(d: System<T>, e: Event<T>, r: ReaderId)
    requires CanStep(d, e) && r in d.s.readers && d.s.readers[r].pc.Inside? && r in d.seen
    requires e != Inner(Unlock(r))
    ensures var d' := After(d, e);
            && r in d'.s.readers && d'.s.readers[r].pc == d.s.readers[r].pc
            && r in d'.seen && d'.seen[r] == d.seen[r] && d.log <= d'.log
  {
  }

  /** Whatever the other threads do, a region keeps its copy and its version, and versions are only added. */
  lemma {:induction false} RegionIsFrozen<T>(d: System<T>, es: seq<Event<T>>, r: ReaderId)
    requires SystemInv(d) && IsHistory(d, es)
    requires r in d.s.readers && d.s.readers[r].pc.Inside?
    requires Inner(Unlock(r)) !in es
    ensures var d' := Replay(d, es);
            && SystemInv(d') && d.log <= d'.log
            && r in d'.s.readers && d'.s.readers[r].pc == d.s.readers[r].pc
            && r in d.seen && r in d'.seen && d'.seen[r] == d.seen[r]
    decreases |es|
  {
    assert RegionOk(d, r);
    if es != [] {
      EventKeepsInv(d, es[0]);
      RegionStep(d, es[0], r);
      RegionIsFrozen(After(d, es[0]), es[1..], r);
    }
  }

  /** A front-buffer section reads one committed version from its first to its last access. */
  lemma FrontSectionSeesOneVersion<T>(d: System<T>, before: seq<Event<T>>, during: seq<Event<T>>, r: ReaderId)
    requires Start(d) && IsHistory(d, before)
    requires var m := Replay(d, before);
             IsHistory(m, during) && r in m.s.readers && m.s.readers[r].pc.Inside? && Inner(Unlock(r)) !in during
    ensures var m := Replay(d, before);
            var ref := m.s.readers[r].pc.ref;
            var n := Replay(m, during);
            && 0 <= ref < |m.s.config| == |n.s.config|
            && n.s.config[ref] == m.s.config[ref]
            && r in m.seen && m.seen[r] < |m.log| && m.s.config[ref] == m.log[m.seen[r]]
  {
    StartIsOk(d);
    HistoryKeepsInv(d, before);
    var m := Replay(d, before);
    RegionIsFrozen(m, during, r);
    var n := Replay(m, during);
    assert RegionOk(m, r) && RegionOk(n, r);
  }

  /** The versions a reader finds never go backwards, and no committed version is ever changed. */
  lemma {:induction false} VersionsNeverGoBack<T>(d: System<T>, es: seq<Event<T>>, r: ReaderId)
    requires SystemInv(d) && IsHistory(d, es) && r in d.seen
    ensures var d' := Replay(d, es);
            d.log <= d'.log && r in d'.seen && d.seen[r] <= d'.seen[r] < |d'.log|
    decreases |es|
  {
    assert d.seen[r] < |d.log|;
    if es != [] {
      EventKeepsInv(d, es[0]);
      VersionStep(d, es[0], r);
      hide SystemInv, After, CanStep;
      VersionsNeverGoBack(After(d, es[0]), es[1..], r);
    }
  }

  lemma VersionStep<T>(d: System<T>, e: Event<T>, r: ReaderId)
    requires SystemInv(d) && CanStep(d, e) && r in d.seen
    ensures var d' := After(d, e); d.log <= d'.log && r in d'.seen && d.seen[r] <= d'.seen[r]
  {
    assert d.seen[r] < |d.log|;
    hide Inv, PhaseOk, RegionOk, Apply;
  }

  /** From the start on, in any history: what a reader has seen, it never sees an older version afterwards. */
  lemma ReadersNeverGoBack<T>(d: System<T>, before: seq<Event<T>>, after: seq<Event<T>>, r: ReaderId)
    requires Start(d) && IsHistory(d, before) && r in Replay(d, before).seen && IsHistory(Replay(d, before), after)
    ensures var m, n := Replay(d, before), Replay(Replay(d, before), after);
            m.log <= n.log && r in n.seen && m.seen[r] <= n.seen[r] < |n.log|
  {
    StartIsOk(d);
    HistoryKeepsInv(d, before);
    VersionsNeverGoBack(Replay(d, before), after, r);
  }

  /** Lock() finds the version that is the latest at that moment. */
  lemma LockFindsLatest<T>(d: System<T>, es: seq<Event<T>>, r: ReaderId)
    requires Start(d) && IsHistory(d, es) && CanStep(Replay(d, es), Inner(LockLoad(r)))
    ensures var d' := After(Replay(d, es), Inner(LockLoad(r)));
            && d'.s.readers[r].pc.Inside? && 0 <= d'.s.readers[r].pc.ref < |d'.s.config|
            && d'.s.config[d'.s.readers[r].pc.ref] == Last(d'.log)
  {
    StartIsOk(d);
    HistoryKeepsInv(d, es);
    EventKeepsInv(Replay(d, es), Inner(LockLoad(r)));
  }

  // ----- Push -----

  predicate StartsNewEdit<T>(e: Event<T>) {
    e.BeginSync? || e.Resume? || e.Edit? || e.EndSync?
  }

  /** The progress of one Push(b) that started when the committed versions were `base`. */
  predicate Pushing<T(==)>(d: System<T>, base: seq<T>, b: T) {
    match d.phase
    case Editing => false
    case Switching(clone) => clone == b && d.log == if d.s.wbuf == [] then base + [b] else base
    case _ => d.log == base + [b]
  }

  lemma PushStep<T>(d: System<T>, e: Event<T>, base: seq<T>, b: T)
    requires SystemInv(d) && CanStep(d, e) && Pushing(d, base, b) && !StartsNewEdit(e)
    ensures Pushing(After(d, e), base, b)
  {
    if e == Inner(DrainWriter) {
      assert WriterBufferOk(d.s, d.phase.Switching?);
      assert d.s.wbuf[0].IndexStore? <==> d.phase.Switching? && |d.s.wbuf| == 1;
    }
  }

  lemma {:induction false} PushRun<T>(d: System<T>, es: seq<Event<T>>, base: seq<T>, b: T)
    requires SystemInv(d) && IsHistory(d, es) && Pushing(d, base, b)
    requires forall e | e in es :: !StartsNewEdit(e)
    ensures Pushing(Replay(d, es), base, b) && SystemInv(Replay(d, es))
    decreases |es|
  {
    if es != [] {
      EventKeepsInv(d, es[0]);
      PushStep(d, es[0], base, b);
      PushRun(After(d, es[0]), es[1..], base, b);
    }
  }

  /** The writer has assigned b to its copy and has not switched yet. */
  predicate Pushed<T(==)>(d: System<T>, b: T) {
    d.phase == Editing && CanRead(d.s) && BackCopy(d.s) == b
  }

  predicate KeepsPushed<T>(e: Event<T>) {
    !e.Edit? && !e.EndSync?
  }

  lemma PushedStep<T>(d: System<T>, e: Event<T>, b: T)
    requires SystemInv(d) && CanStep(d, e) && Pushed(d, b) && KeepsPushed(e)
    ensures Pushed(After(d, e), b)
  {
    if e == Inner(DrainWriter) {
      assert WriterBufferOk(d.s, false);
    }
  }

  lemma {:induction false} PushedRun<T>(d: System<T>, es: seq<Event<T>>, b: T)
    requires SystemInv(d) && IsHistory(d, es) && Pushed(d, b)
    requires forall e | e in es :: KeepsPushed(e)
    ensures Pushed(Replay(d, es), b) && SystemInv(Replay(d, es))
    decreases |es|
  {
    if es != [] {
      EventKeepsInv(d, es[0]);
      PushedStep(d, es[0], b);
      PushedRun(After(d, es[0]), es[1..], b);
    }
  }

  /** The history of one Push(b): what was before, the assignment of b, what others do until the switch begins. */
  ghost predicate PushBegins<T>(d: System<T>, before: seq<Event<T>>, b: T, during: seq<Event<T>>) {
    && IsHistory(d, before) && CanStep(Replay(d, before), Edit(b))
    && IsHistory(After(Replay(d, before), Edit(b)), during) && (forall e | e in during :: KeepsPushed(e))
    && CanStep(Replay(After(Replay(d, before), Edit(b)), during), EndSync)
  }

  /** The state in which the switch begins. */
  ghost function AtSwitch<T>(d: System<T>, before: seq<Event<T>>, b: T, during: seq<Event<T>>): System<T>
    requires PushBegins(d, before, b, during)
  {
    Replay(After(Replay(d, before), Edit(b)), during)
  }

  /** What SwitchConfig() commits, and the clone that is assigned afterwards, is the value that was pushed. */
  lemma SwitchesPushedValue<T>(d: System<T>, before: seq<Event<T>>, b: T, during: seq<Event<T>>)
    requires Start(d) && PushBegins(d, before, b, during)
    ensures SystemInv(AtSwitch(d, before, b, during)) && BackCopy(AtSwitch(d, before, b, during).s) == b
  {
    StartIsOk(d);
    HistoryKeepsInv(d, before);
    var m := Replay(d, before);
    EventKeepsInv(m, Edit(b));
    assert Pushed(After(m, Edit(b)), b);
    PushedRun(After(m, Edit(b)), during, b);
  }

  /**
   From the moment SwitchConfig() returns inside Push(b) until the next edit begins, every region
   that is open runs with b, whenever it was opened, and b is the one version added.
   */
  lemma PushTakesEffect<T>(d: System<T>, before: seq<Event<T>>, b: T, during: seq<Event<T>>, after: seq<Event<T>>,
      r: ReaderId)
    requires Start(d) && PushBegins(d, before, b, during)
    requires IsHistory(After(AtSwitch(d, before, b, during), EndSync), after)
    requires forall e | e in after :: !StartsNewEdit(e)
    ensures var m := AtSwitch(d, before, b, during);
            var n := Replay(After(m, EndSync), after);
            !n.phase.Switching? ==>
              && n.log == m.log + [b]
              && (r in n.s.readers && n.s.readers[r].pc.Inside? ==>
                    var ref := n.s.readers[r].pc.ref; 0 <= ref < |n.s.config| && n.s.config[ref] == b)
  {
    SwitchesPushedValue(d, before, b, during);
    var m := AtSwitch(d, before, b, during);
    EventKeepsInv(m, EndSync);
    PushRun(After(m, EndSync), after, m.log, b);
    var n := Replay(After(m, EndSync), after);
    if !n.phase.Switching? && r in n.s.readers && n.s.readers[r].pc.Inside? {
      assert RegionOk(n, r);
    }
  }

  /** The value Push() reports as the old condition is the latest committed one. */
  lemma PushReportsOldCondition<T>(d: System<T>, es: seq<Event<T>>, e: Event<T>)
    requires Start(d) && IsHistory(d, es) && CanStep(Replay(d, es), e)
    requires e.BeginSync? || e.Resume?
    ensures var m := After(Replay(d, es), e);
            m.log != [] && CanRead(m.s) && BackCopy(m.s) == Last(m.log)
  {
    StartIsOk(d);
    HistoryKeepsInv(d, es);
  }
}
