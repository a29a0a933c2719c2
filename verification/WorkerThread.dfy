/**
 Model of src/common/WorkerThread.cpp on top of src/common/Condition.cpp: any number of threads
 call Execute() while one worker thread drains the job queue and sleeps when it is empty.

 A step is one critical section: of the queue's mutex, or of the condition object. The wait of
 the worker up to its Unlock() is one section that is left while it sleeps.
 */
module WorkerThread {

  type ThreadId = int
  type Job = int

  datatype WorkerPc =
    | Draining                  // about to look for a job
    | Running(job: Job)
    | Checking                  // the queue was empty, WaitIf(false) is next
    | Sleeping(signalled: bool) // in pthread_cond_wait(), and whether a broadcast reached it

  datatype State = State(
    queue: seq<Job>,
    flag: bool,                   // bCondition of conditionJobsLeft
    callers: map<ThreadId, Job>,  // threads between the two sections of Execute()
    pc: WorkerPc,
    accepted: seq<Job>,           // all jobs ever put into the queue, in this order
    done: seq<Job>)               // all jobs that were run

  /** In which order Execute() queues the job and sets the flag. The source queues first. */
  datatype Order = QueueFirst | FlagFirst

  datatype Step =
    | Enter(t: ThreadId, job: Job)  // first section of Execute()
    | Leave(t: ThreadId)            // second section
    | Take                          // grab a job, or find the queue empty
    | Finish                        // the job has run, or failed
    | Wait                          // WaitIf(false)
    | Resume                        // woken by a broadcast
    | Spurious                      // woken without one

  // ----- Transitions -----

  predicate Enabled(s: State, a: Step) {
    match a
    case Enter(t, _) => t !in s.callers
    case Leave(t) => t in s.callers
    case Take => s.pc == Draining
    case Finish => s.pc.Running?
    case Wait => s.pc == Checking
    case Resume => s.pc == Sleeping(true)
    case Spurious => s.pc.Sleeping?
  }

  function Queued(s: State, job: Job): State {
    s.(queue := s.queue + [job], accepted := s.accepted + [job])
  }

  /** Set(true): a broadcast is sent only if the flag changes. */
  function FlagSet(s: State): State {
    if s.flag then s else s.(flag := true, pc := if s.pc.Sleeping? then Sleeping(true) else s.pc)
  }

  function Apply(o: Order, s: State, a: Step): State
    requires Enabled(s, a)
  {
    match a
    case Enter(t, job) =>
      (if o.QueueFirst? then Queued(s, job) else FlagSet(s)).(callers := s.callers[t := job])
    case Leave(t) =>
      (if o.QueueFirst? then FlagSet(s) else Queued(s, s.callers[t])).(callers := s.callers - {t})
    case Take =>
      if s.queue == [] then s.(pc := Checking) else s.(queue := s.queue[1..], pc := Running(s.queue[0]))
    case Finish =>
      s.(pc := Draining, done := s.done + [s.pc.job])
    case Wait =>
      if s.flag then s.(flag := false, pc := Draining) else s.(pc := Sleeping(false))
    case Resume =>
      s.(flag := false, pc := Draining)
    case Spurious =>
      s.(flag := false, pc := Draining)
  }

  predicate Initial(s: State) {
    s == State([], false, map[], Draining, [], [])
  }

  predicate IsRun(o: Order, s: State, steps: seq<Step>)
    decreases |steps|
  {
    steps == [] || (Enabled(s, steps[0]) && IsRun(o, Apply(o, s, steps[0]), steps[1..]))
  }

  function Exec(o: Order, s: State, steps: seq<Step>): State
    requires IsRun(o, s, steps)
    decreases |steps|
  {
    if steps == [] then s else Exec(o, Apply(o, s, steps[0]), steps[1..])
  }

  // ----- Every job exactly once, in order -----

  function InHand(s: State): seq<Job> {
    if s.pc.Running? then [s.pc.job] else []
  }

  /** Every accepted job was run, is being run or is queued, once, and in the order of acceptance. */
  predicate Ordered(s: State) {
    s.accepted == s.done + InHand(s) + s.queue
  }

  // ----- No lost wake-up -----

  /** The worker sleeps, and nobody is going to wake it. */
  predicate Abandoned(s: State) {
    s.pc == Sleeping(false) && s.callers == map[]
  }

  predicate Inv(s: State) {
    && Ordered(s)
    && (s.pc.Sleeping? ==> (s.pc.signalled <==> s.flag))
    && (s.queue != [] ==> s.pc == Draining || s.pc.Running? || s.flag || s.callers != map[])
  }

  lemma StepKeepsInv(s: State, a: Step)
    requires Inv(s) && Enabled(s, a)
    ensures Inv(Apply(QueueFirst, s, a))
  {
    var s' := Apply(QueueFirst, s, a);
    match a
    case Enter(t, job) =>
      assert t in s'.callers;
    case Leave(t) =>
      assert s'.flag;
    case Take =>
      if s.queue != [] { assert s.queue == [s.queue[0]] + s.queue[1..]; }
    case Finish =>
    case Wait =>
    case Resume =>
    case Spurious =>
  }

  lemma {:induction false} RunKeepsInv(s: State, steps: seq<Step>)
    requires Inv(s) && IsRun(QueueFirst, s, steps)
    ensures Inv(Exec(QueueFirst, s, steps))
    decreases |steps|
  {
    if steps != [] {
      StepKeepsInv(s, steps[0]);
      RunKeepsInv(Apply(QueueFirst, s, steps[0]), steps[1..]);
    }
  }

  /** The jobs that Execute() is called with, in the order in which the calls begin. */
  function Given(steps: seq<Step>): seq<Job> {
    if steps == [] then []
    else Given(steps[..|steps| - 1]) + match steps[|steps| - 1] case Enter(_, job) => [job] case _ => []
  }

  /** How often a job has run to its end. */
  function Finishes(steps: seq<Step>): nat {
    if steps == [] then 0
    else Finishes(steps[..|steps| - 1]) + match steps[|steps| - 1] case Finish => 1 case _ => 0
  }

  lemma {:induction false} GivenCons(a: Step, rest: seq<Step>)
    ensures Given([a] + rest) == Given([a]) + Given(rest)
    ensures Finishes([a] + rest) == Finishes([a]) + Finishes(rest)
    decreases |rest|
  {
    if rest == [] {
      assert [a] + rest == [a];
      assert Given([a]) + [] == Given([a]);
    } else {
      var n := |rest| - 1;
      GivenCons(a, rest[..n]);
      assert ([a] + rest)[..n + 1] == [a] + rest[..n];
    }
  }

  /** What a call of Execute() is given is accepted at once. */
  lemma {:induction false} AcceptedIsGiven(s: State, steps: seq<Step>)
    requires IsRun(QueueFirst, s, steps)
    ensures var e := Exec(QueueFirst, s, steps);
            e.accepted == s.accepted + Given(steps) && |e.done| == |s.done| + Finishes(steps)
    decreases |steps|
  {
    if steps == [] {
      assert s.accepted + Given([]) == s.accepted;
    } else {
      var a, rest := steps[0], steps[1..];
      var s' := Apply(QueueFirst, s, a);
      assert steps == [a] + rest && [a][..0] == [];
      assert s'.accepted == s.accepted + Given([a]) && |s'.done| == |s.done| + Finishes([a]);
      AcceptedIsGiven(s', rest);
      GivenCons(a, rest);
    }
  }

  /** In every run, the given jobs are run once each in their order, and an abandoned worker has run them all. */
  lemma NoLostWakeup(s: State, steps: seq<Step>)
    requires Initial(s) && IsRun(QueueFirst, s, steps)
    ensures var e := Exec(QueueFirst, s, steps);
            && e.done <= Given(steps) && |e.done| == Finishes(steps)
            && (Abandoned(e) ==> e.queue == [] && e.done == Given(steps))
  {
    RunKeepsInv(s, steps);
    AcceptedIsGiven(s, steps);
    var e := Exec(QueueFirst, s, steps);
    assert [] + Given(steps) == Given(steps);
    assert e.done == e.accepted[..|e.done|];
  }

  // ----- Progress -----

  /** The step of the worker if it has one; it does not rely on spurious wake-ups. */
  function WorkerStep(s: State): (a: Step)
    requires s.pc != Sleeping(false)
    ensures Enabled(s, a)
  {
    match s.pc
    case Draining => Take
    case Running(_) => Finish
    case Checking => Wait
    case Sleeping(_) => Resume
  }

  function RunWorker(s: State, n: nat): State
    decreases n
  {
    if n == 0 || s.pc == Sleeping(false) then s else RunWorker(Apply(QueueFirst, s, WorkerStep(s)), n - 1)
  }

  /** How many steps the worker needs until it sleeps, as long as nobody calls. */
  function Remaining(s: State): nat {
    2 * |s.queue| + (if s.flag then 4 else 0) +
    match s.pc
    case Draining => 2
    case Running(_) => 3
    case Checking => 1
    case Sleeping(_) => 0
  }

  /** Without callers on their way, the worker itself runs every accepted job and then sleeps. */
  lemma {:induction false} WorkerCompletes(s: State)
    requires Inv(s) && s.callers == map[]
    ensures var e := RunWorker(s, Remaining(s));
            Abandoned(e) && e.accepted == s.accepted && e.done == s.accepted && e.queue == []
    decreases Remaining(s)
  {
    if s.pc != Sleeping(false) {
      var s' := Apply(QueueFirst, s, WorkerStep(s));
      StepKeepsInv(s, WorkerStep(s));
      WorkerCompletes(s');
      MoreFuel(s', Remaining(s'), Remaining(s) - 1);
    }
  }

  /** After any run that leaves no call under way, the worker itself runs every job that was given. */
  lemma EveryJobIsRun(s: State, steps: seq<Step>)
    requires Initial(s) && IsRun(QueueFirst, s, steps) && Exec(QueueFirst, s, steps).callers == map[]
    ensures var m := Exec(QueueFirst, s, steps);
            var e := RunWorker(m, Remaining(m)); Abandoned(e) && e.done == Given(steps)
  {
    RunKeepsInv(s, steps);
    AcceptedIsGiven(s, steps);
    WorkerCompletes(Exec(QueueFirst, s, steps));
    assert [] + Given(steps) == Given(steps);
  }

  lemma {:induction false} MoreFuel(s: State, n: nat, m: nat)
    requires n <= m && RunWorker(s, n).pc == Sleeping(false)
    ensures RunWorker(s, m) == RunWorker(s, n)
    decreases n
  {
    if n > 0 && s.pc != Sleeping(false) {
      MoreFuel(Apply(QueueFirst, s, WorkerStep(s)), n - 1, m - 1);
    }
  }

  // ----- The order of the two sections of Execute() matters -----

  ghost predicate LosesNothing(o: Order) {
    forall s, steps | Initial(s) && IsRun(o, s, steps) && Abandoned(Exec(o, s, steps)) ::
      Exec(o, s, steps).done == Given(steps)
  }

  /** With the flag set first, the worker can look, find nothing and sleep before the job is queued. */
  lemma FlagFirstLoses()
    ensures !LosesNothing(FlagFirst)
  {
    var s0 := State([], false, map[], Draining, [], []);
    var s1 := Apply(FlagFirst, s0, Enter(1, 7));
    var s2 := Apply(FlagFirst, s1, Take);
    var s3 := Apply(FlagFirst, s2, Wait);
    var s4 := Apply(FlagFirst, s3, Take);
    var s5 := Apply(FlagFirst, s4, Wait);
    var s6 := Apply(FlagFirst, s5, Leave(1));
    Extend(FlagFirst, s5, Leave(1), []);
    Extend(FlagFirst, s4, Wait, [Leave(1)]);
    Extend(FlagFirst, s3, Take, [Wait, Leave(1)]);
    Extend(FlagFirst, s2, Wait, [Take, Wait, Leave(1)]);
    Extend(FlagFirst, s1, Take, [Wait, Take, Wait, Leave(1)]);
    Extend(FlagFirst, s0, Enter(1, 7), [Take, Wait, Take, Wait, Leave(1)]);
    var steps := [Enter(1, 7)] + [Take, Wait, Take, Wait, Leave(1)];
    assert Exec(FlagFirst, s0, steps) == s6;
    assert s6.callers == map[] && s6.done == [];
    GivenCons(Enter(1, 7), [Take, Wait, Take, Wait, Leave(1)]);
    assert |Given([Enter(1, 7)])| == 1;
  }

  lemma Extend(o: Order, s: State, a: Step, rest: seq<Step>)
    requires Enabled(s, a) && IsRun(o, Apply(o, s, a), rest)
    ensures IsRun(o, s, [a] + rest) && Exec(o, s, [a] + rest) == Exec(o, Apply(o, s, a), rest)
  {
    assert ([a] + rest)[1..] == rest;
  }

  /** No job is ever left behind exactly if Execute() queues the job before it sets the flag. */
  lemma LosesNothingIffQueueFirst(o: Order)
    ensures LosesNothing(o) <==> o == QueueFirst
  {
    if o == QueueFirst {
      forall s, steps | Initial(s) && IsRun(o, s, steps) && Abandoned(Exec(o, s, steps))
        ensures Exec(o, s, steps).done == Given(steps)
      {
        NoLostWakeup(s, steps);
      }
    } else {
      FlagFirstLoses();
    }
  }
}
