/** The parallel test dispatcher: one main thread, worker threads, two FIFO queues, one sentinel per
    worker and an interrupt flag (worker_thread and run_tests, simulation/test.py). */
module Dispatcher {
  import opened Sums

  // id stands for the identity of the Job object.
  datatype Job = Job(id: nat, isBreak: bool, isSkip: bool, returncode: int)

  datatype Worker =
    | AtGet               // about to take from the input queue
    | Holding(job: Job)   // not a sentinel; about to look at the interrupt flag
    | Cleared(job: Job)   // the flag was not set; about to skip or run the job
    | Ready(job: Job)     // about to put the job on the output queue
    | Returned

  // The program counter of the main thread is in the counts: it dispatches every test, then sends
  // a sentinel per worker, then collects as many jobs as it dispatched, then joins the workers.
  datatype State = State(
    tests: seq<Job>,
    dispatched: nat,
    stopped: nat,
    joined: nat,
    input: seq<Job>,
    workers: seq<Worker>,
    output: seq<Job>,
    collected: seq<Job>,
    threadExit: bool)

  datatype Step =
    | Dispatch
    | Stop
    | Get(w: nat)
    | CheckExit(w: nat)
    | Work(w: nat, returncode: int)
    | Put(w: nat)
    | Collect
    | Join
    | Interrupt

  predicate TestsOk(tests: seq<Job>) {
    forall i :: 0 <= i < |tests| ==> tests[i].id == i && !tests[i].isBreak
  }

  predicate Init(s: State) {
    && TestsOk(s.tests)
    && s.dispatched == s.stopped == s.joined == 0
    && s.input == s.output == s.collected == []
    && !s.threadExit
    && (forall w :: 0 <= w < |s.workers| ==> s.workers[w] == AtGet)
  }

  function Sentinel(s: State): Job {
    Job(|s.tests| + s.stopped, true, false, 0)
  }

  predicate Enabled(s: State, step: Step) {
    match step
    case Dispatch => s.dispatched < |s.tests|
    case Stop => s.dispatched == |s.tests| && s.stopped < |s.workers|
    case Get(w) => w < |s.workers| && s.workers[w].AtGet? && s.input != []
    case CheckExit(w) => w < |s.workers| && s.workers[w].Holding?
    case Work(w, _) => w < |s.workers| && s.workers[w].Cleared?
    case Put(w) => w < |s.workers| && s.workers[w].Ready?
    case Collect =>
      s.dispatched == |s.tests| && s.stopped == |s.workers| && |s.collected| < |s.tests| && s.output != []
    case Join =>
      && s.dispatched == |s.tests| && s.stopped == |s.workers| && |s.collected| == |s.tests|
      && s.joined < |s.workers| && s.workers[s.joined].Returned?
    case Interrupt => true
  }

  // What a worker becomes by a step of its own.
  function NextWorker(s: State, step: Step): Worker
    requires Enabled(s, step) && (step.Get? || step.CheckExit? || step.Work? || step.Put?)
  {
    match step
    case Get(w) => if s.input[0].isBreak then Returned else Holding(s.input[0])
    case CheckExit(w) =>
      var job := s.workers[w].job;
      if s.threadExit then Ready(job.(isBreak := true)) else Cleared(job)
    case Work(w, returncode) =>
      var job := s.workers[w].job;
      if job.isSkip then Ready(job) else Ready(job.(returncode := returncode))
    case Put(w) => AtGet
  }

  function Apply(s: State, step: Step): State
    requires Enabled(s, step)
  {
    match step
    case Dispatch => s.(input := s.input + [s.tests[s.dispatched]], dispatched := s.dispatched + 1)
    case Stop => s.(input := s.input + [Sentinel(s)], stopped := s.stopped + 1)
    case Get(w) => s.(workers := s.workers[w := NextWorker(s, step)], input := s.input[1..])
    case CheckExit(w) => s.(workers := s.workers[w := NextWorker(s, step)])
    case Work(w, _) => s.(workers := s.workers[w := NextWorker(s, step)])
    case Put(w) =>
      s.(workers := s.workers[w := NextWorker(s, step)], output := s.output + [s.workers[w].job])
    case Collect => s.(output := s.output[1..], collected := s.collected + [s.output[0]])
    case Join => s.(joined := s.joined + 1)
    case Interrupt => s.(threadExit := true)
  }

  // The main thread has come to the end: all jobs collected, all workers joined.
  predicate Complete(s: State) {
    && s.dispatched == |s.tests| && s.stopped == |s.workers|
    && |s.collected| == |s.tests| && s.joined == |s.workers|
  }

  // ---------- conserved totals ----------

  // A quantity spread over the places where jobs are.
  datatype Charge = Charge(input: Job -> int, worker: Worker -> int, output: Job -> int, collected: Job -> int)

  ghost function Total(c: Charge, s: State): int {
    Sum(c.input, s.input) + Sum(c.worker, s.workers) + Sum(c.output, s.output) + Sum(c.collected, s.collected)
  }

  ghost function Delta(c: Charge, s: State, step: Step): int
    requires Enabled(s, step)
  {
    match step
    case Dispatch => c.input(s.tests[s.dispatched])
    case Stop => c.input(Sentinel(s))
    case Get(w) => c.worker(NextWorker(s, step)) - c.worker(AtGet) - c.input(s.input[0])
    case CheckExit(w) => c.worker(NextWorker(s, step)) - c.worker(s.workers[w])
    case Work(w, _) => c.worker(NextWorker(s, step)) - c.worker(s.workers[w])
    case Put(w) => c.worker(AtGet) - c.worker(s.workers[w]) + c.output(s.workers[w].job)
    case Collect => c.collected(s.output[0]) - c.output(s.output[0])
    case Join => 0
    case Interrupt => 0
  }

  lemma StepTotal(c: Charge, s: State, step: Step)
    requires Enabled(s, step)
    ensures Total(c, Apply(s, step)) == Total(c, s) + Delta(c, s, step)
  {
    match step
    case Dispatch => SumAppend(c.input, s.input, [s.tests[s.dispatched]]);
    case Stop => SumAppend(c.input, s.input, [Sentinel(s)]);
    case Get(w) => SumUpdate(c.worker, s.workers, w, NextWorker(s, step));
    case CheckExit(w) => SumUpdate(c.worker, s.workers, w, NextWorker(s, step));
    case Work(w, _) => SumUpdate(c.worker, s.workers, w, NextWorker(s, step));
    case Put(w) =>
      SumUpdate(c.worker, s.workers, w, NextWorker(s, step));
      SumAppend(c.output, s.output, [s.workers[w].job]);
    case Collect => SumAppend(c.collected, s.collected, [s.output[0]]);
    case Join =>
    case Interrupt =>
  }

  ghost function Bit(b: bool): int { if b then 1 else 0 }

  ghost predicate Busy(w: Worker) { w.Holding? || w.Cleared? || w.Ready? }

  // Where the dispatched job number id is.
  ghost function PlacesOf(id: nat): Charge {
    Charge((j: Job) => Bit(j.id == id), (w: Worker) => Bit(Busy(w) && w.job.id == id),
           (j: Job) => Bit(j.id == id), (j: Job) => Bit(j.id == id))
  }

  // Jobs, not counting sentinels.
  ghost function Jobs(): Charge {
    Charge((j: Job) => Bit(!j.isBreak), (w: Worker) => Bit(Busy(w)), (j: Job) => 1, (j: Job) => 1)
  }

  // Sentinels, and the workers that have taken one.
  ghost function Sentinels(): Charge {
    Charge((j: Job) => Bit(j.isBreak), (w: Worker) => Bit(w.Returned?), (j: Job) => 0, (j: Job) => 0)
  }

  // The number of steps that are still to come for what is in each place.
  ghost function ToDo(): Charge {
    Charge((j: Job) => if j.isBreak then 1 else 5,
           (w: Worker) => match w case Holding(_) => 4 case Cleared(_) => 3 case Ready(_) => 2 case _ => 0,
           (j: Job) => 1, (j: Job) => 0)
  }

  ghost function StepsLeft(s: State): int {
    6 * (|s.tests| - s.dispatched) + 2 * (|s.workers| - s.stopped) + (|s.workers| - s.joined) + Total(ToDo(), s)
  }

  // Every step but an interrupt uses up at least one of the steps left.
  lemma StepsCountDown(s: State, step: Step)
    requires Enabled(s, step) && Inv(s)
    ensures StepsLeft(Apply(s, step)) <= StepsLeft(s) - if step.Interrupt? then 0 else 1
  {
    StepTotal(ToDo(), s, step);
  }

  // ---------- the invariant ----------

  // The job is the test it was dispatched as, possibly marked as interrupted or with a return code.
  ghost predicate ReportOn(s: State, j: Job) {
    && j.id < |s.tests|
    && (j.isBreak ==> s.threadExit && j == s.tests[j.id].(isBreak := true))
    && (!j.isBreak && j.isSkip ==> j == s.tests[j.id])
    && j == s.tests[j.id].(isBreak := j.isBreak, returncode := j.returncode)
  }

  ghost predicate WorkerOk(s: State, w: Worker) {
    match w
    case AtGet => true
    case Holding(j) => j.id < |s.tests| && j == s.tests[j.id]
    case Cleared(j) => j.id < |s.tests| && j == s.tests[j.id]
    case Ready(j) => ReportOn(s, j)
    case Returned => true
  }

  ghost predicate InputOk(s: State, j: Job) {
    if j.isBreak then |s.tests| <= j.id else j.id < |s.tests| && j == s.tests[j.id]
  }

  // The main thread does one thing after the other.
  ghost predicate InOrder(s: State) {
    && s.dispatched <= |s.tests| && s.stopped <= |s.workers| && s.joined <= |s.workers|
    && (s.stopped > 0 ==> s.dispatched == |s.tests|)
    && (s.collected != [] ==> s.dispatched == |s.tests| && s.stopped == |s.workers|)
    && |s.collected| <= |s.tests|
    && (s.joined > 0 ==> s.dispatched == |s.tests| && s.stopped == |s.workers| && |s.collected| == |s.tests|)
    && (forall w :: 0 <= w < s.joined ==> s.workers[w].Returned?)
  }

  // In the input queue all jobs are ahead of all sentinels, and once a sentinel has been taken no
  // job is left there.
  ghost predicate Fifo(s: State) {
    && (forall i, j :: 0 <= i < j < |s.input| && s.input[i].isBreak ==> s.input[j].isBreak)
    && ((exists w :: 0 <= w < |s.workers| && s.workers[w].Returned?) ==>
          s.stopped > 0 && forall i :: 0 <= i < |s.input| ==> s.input[i].isBreak)
    && (s.stopped == 0 ==> forall i :: 0 <= i < |s.input| ==> !s.input[i].isBreak)
  }

  ghost predicate Contents(s: State) {
    && (forall i :: 0 <= i < |s.input| ==> InputOk(s, s.input[i]))
    && (forall w :: 0 <= w < |s.workers| ==> WorkerOk(s, s.workers[w]))
    && (forall i :: 0 <= i < |s.output| ==> ReportOn(s, s.output[i]))
    && (forall i :: 0 <= i < |s.collected| ==> ReportOn(s, s.collected[i]))
  }

  // Each dispatched job is in exactly one place, and each sentinel sent is in the input queue or
  // has been taken by a worker that has returned.
  ghost predicate Conserved(s: State) {
    && (forall id: nat :: id < |s.tests| ==> Total(PlacesOf(id), s) == Bit(id < s.dispatched))
    && Total(Jobs(), s) == s.dispatched
    && Total(Sentinels(), s) == s.stopped
  }

  ghost predicate Inv(s: State) {
    TestsOk(s.tests) && InOrder(s) && Fifo(s) && Contents(s) && Conserved(s)
  }

  lemma StepConserves(s: State, step: Step)
    requires Inv(s) && Enabled(s, step)
    ensures Conserved(Apply(s, step))
  {
    hide Fifo, ReportOn;
    forall id: nat | id < |s.tests|
      ensures Total(PlacesOf(id), Apply(s, step)) == Bit(id < Apply(s, step).dispatched)
    {
      StepTotal(PlacesOf(id), s, step);
    }
    StepTotal(Jobs(), s, step);
    StepTotal(Sentinels(), s, step);
  }

  lemma InitInv(s: State)
    requires Init(s)
    ensures Inv(s)
    ensures StepsLeft(s) == 6 * |s.tests| + 3 * |s.workers|
  {
    forall c: Charge | c.worker(AtGet) == 0
      ensures Total(c, s) == 0
    {
      SumNonNegative(c.worker, s.workers);
    }
  }

  // What stays where it is stays right: the tests do not change, and an interrupt is not taken back.
  lemma StillOk(s: State, step: Step)
    requires Enabled(s, step)
    ensures var s' := Apply(s, step);
      && s'.tests == s.tests
      && (forall j :: InputOk(s, j) ==> InputOk(s', j))
      && (forall j :: ReportOn(s, j) ==> ReportOn(s', j))
      && (forall w :: WorkerOk(s, w) ==> WorkerOk(s', w))
  {
  }

  // What a step moves to another place is right there.
  lemma MovedOk(s: State, step: Step)
    requires TestsOk(s.tests) && InOrder(s) && Contents(s) && Enabled(s, step)
    ensures step.Dispatch? ==> InputOk(s, s.tests[s.dispatched])
    ensures step.Stop? ==> InputOk(s, Sentinel(s))
    ensures step.Get? || step.CheckExit? || step.Work? || step.Put? ==> WorkerOk(s, NextWorker(s, step))
    ensures step.Put? ==> ReportOn(s, s.workers[step.w].job)
    ensures step.Collect? ==> ReportOn(s, s.output[0])
  {
    assert step.Get? ==> InputOk(s, s.input[0]);
    assert step.CheckExit? || step.Work? || step.Put? ==> WorkerOk(s, s.workers[step.w]);
  }

  lemma StepKeepsContents(s: State, step: Step)
    requires Inv(s) && Enabled(s, step)
    ensures Contents(Apply(s, step))
  {
    hide Conserved, Fifo;
    StillOk(s, step);
    MovedOk(s, step);
    hide InOrder, InputOk, WorkerOk, ReportOn, NextWorker;
  }

  lemma StepKeepsOrder(s: State, step: Step)
    requires Inv(s) && Enabled(s, step)
    ensures InOrder(Apply(s, step)) && Fifo(Apply(s, step))
  {
    hide Conserved;
  }

  lemma StepInv(s: State, step: Step)
    requires Inv(s) && Enabled(s, step)
    ensures Inv(Apply(s, step))
    ensures Apply(s, step).tests == s.tests && |Apply(s, step).workers| == |s.workers|
  {
    StepConserves(s, step);
    StepKeepsContents(s, step);
    StepKeepsOrder(s, step);
    hide Conserved, Contents, InOrder, Fifo;
  }

  lemma StepsLeftNonNegative(s: State)
    requires Inv(s)
    ensures StepsLeft(s) >= 0
  {
    SumNonNegative(ToDo().input, s.input);
    SumNonNegative(ToDo().worker, s.workers);
    SumNonNegative(ToDo().output, s.output);
    SumNonNegative(ToDo().collected, s.collected);
  }

  // ---------- runs ----------

  ghost predicate IsRun(run: seq<State>, steps: seq<Step>) {
    && |run| == |steps| + 1
    && Init(run[0])
    && forall k :: 0 <= k < |steps| ==> Enabled(run[k], steps[k]) && run[k + 1] == Apply(run[k], steps[k])
  }

  ghost function NonInterrupts(steps: seq<Step>): int {
    Sum((t: Step) => Bit(!t.Interrupt?), steps)
  }

  // Whatever the threads and the interrupts do, the invariant holds all along, and the run has at
  // most six steps per test and three per worker, not counting interrupts.
  lemma {:induction false} RunInv(run: seq<State>, steps: seq<Step>)
    requires IsRun(run, steps)
    ensures Inv(run[|steps|]) && run[|steps|].tests == run[0].tests && |run[|steps|].workers| == |run[0].workers|
    ensures NonInterrupts(steps) + StepsLeft(run[|steps|]) <= 6 * |run[0].tests| + 3 * |run[0].workers|
    decreases |steps|
  {
    hide Inv, StepsLeft, Enabled, Apply, Init;
    if steps == [] {
      InitInv(run[0]);
    } else {
      var n := |steps| - 1;
      RunInv(run[..n + 1], steps[..n]);
      assert run[n + 1] == Apply(run[n], steps[n]);
      StepInv(run[n], steps[n]);
      StepsCountDown(run[n], steps[n]);
      assert steps == steps[..n] + [steps[n]];
      SumAppend((t: Step) => Bit(!t.Interrupt?), steps[..n], [steps[n]]);
    }
  }

  lemma EveryRunIsBounded(run: seq<State>, steps: seq<Step>)
    requires IsRun(run, steps)
    ensures NonInterrupts(steps) <= 6 * |run[0].tests| + 3 * |run[0].workers|
  {
    hide Inv, StepsLeft;
    RunInv(run, steps);
    StepsLeftNonNegative(run[|steps|]);
  }

  // ---------- nothing gets stuck ----------

  lemma AllReturned(s: State)
    requires Inv(s) && s.stopped == |s.workers| && s.input == []
    ensures forall w :: 0 <= w < |s.workers| ==> s.workers[w].Returned?
  {
    SumOfBits(Sentinels().worker, s.workers);
    SumNonNegative(Sentinels().output, s.output);
    SumNonNegative(Sentinels().collected, s.collected);
    assert Sum(Sentinels().worker, s.workers) == |s.workers|;
    assert forall w :: 0 <= w < |s.workers| ==> s.workers[w] in s.workers;
  }

  // With all workers returned and at least one of them there, the input queue is empty.
  lemma InputDrained(s: State)
    requires Inv(s) && s.stopped == |s.workers| > 0
    requires forall w :: 0 <= w < |s.workers| ==> s.workers[w].Returned?
    ensures s.input == []
  {
    assert s.workers[0].Returned?;
    SumOfBits(Sentinels().worker, s.workers);
    SumNonNegative(Sentinels().input, s.input);
    SumNonNegative(Sentinels().output, s.output);
    SumNonNegative(Sentinels().collected, s.collected);
    assert Sum(Sentinels().worker, s.workers) == |s.workers|;
  }

  // Once everything has been taken from the input queue and nobody is at work, all dispatched jobs
  // are on the output queue or collected.
  lemma AllReported(s: State)
    requires Inv(s) && s.input == [] && forall w :: 0 <= w < |s.workers| ==> !Busy(s.workers[w])
    ensures |s.output| + |s.collected| == s.dispatched
  {
    SumNonNegative(Jobs().worker, s.workers);
    SumOfBits(Jobs().output, s.output);
    SumOfBits(Jobs().collected, s.collected);
  }

  lemma NotStuck(s: State) returns (step: Step)
    requires Inv(s) && !Complete(s) && (s.workers != [] || s.tests == [])
    ensures Enabled(s, step) && !step.Interrupt?
  {
    if s.dispatched < |s.tests| {
      return Dispatch;
    }
    if s.stopped < |s.workers| {
      return Stop;
    }
    if w: nat :| w < |s.workers| && Busy(s.workers[w]) {
      return match s.workers[w] case Holding(_) => CheckExit(w) case Cleared(_) => Work(w, 0) case _ => Put(w);
    }
    if w: nat :| w < |s.workers| && s.workers[w].AtGet? {
      if s.input != [] {
        return Get(w);
      }
      AllReturned(s);
      assert false;
    }
    if s.workers != [] {
      InputDrained(s);
      AllReported(s);
    }
    if |s.collected| < |s.tests| {
      return Collect;
    }
    return Join;
  }

  // A test and no worker: nothing ever leaves the input queue, so the main thread waits for ever.
  lemma {:induction false} NoWorkersNoResults(run: seq<State>, steps: seq<Step>)
    requires IsRun(run, steps) && run[0].workers == []
    ensures run[|steps|].workers == [] && run[|steps|].output == run[|steps|].collected == []
    decreases |steps|
  {
    if steps != [] {
      var n := |steps| - 1;
      NoWorkersNoResults(run[..n + 1], steps[..n]);
      assert run[n + 1] == Apply(run[n], steps[n]);
    }
  }

  // Runs that cannot go on are complete exactly if there is a worker or nothing to do.
  lemma StuckIffNoWorkers(run: seq<State>, steps: seq<Step>)
    requires IsRun(run, steps)
    requires forall step: Step :: Enabled(run[|steps|], step) ==> step.Interrupt?
    ensures Complete(run[|steps|]) <==> run[0].workers != [] || run[0].tests == []
  {
    var s := run[|steps|];
    RunInv(run, steps);
    if (run[0].workers != [] || run[0].tests == []) && !Complete(s) {
      var _ := NotStuck(s);
      assert false;
    } else if run[0].workers == [] {
      NoWorkersNoResults(run, steps);
    }
  }

  // When the main thread is through, everything has come to rest, and each test has been collected
  // exactly once.
  lemma CompletedRun(run: seq<State>, steps: seq<Step>)
    requires IsRun(run, steps) && Complete(run[|steps|])
    ensures var s := run[|steps|];
      && (forall w :: 0 <= w < |s.workers| ==> s.workers[w].Returned?)
      && s.input == s.output == []
      && |s.collected| == |s.tests|
      && (forall id: nat :: id < |s.tests| ==> Sum(PlacesOf(id).collected, s.collected) == 1)
      && (forall i :: 0 <= i < |s.collected| ==> ReportOn(s, s.collected[i]))
  {
    var s := run[|steps|];
    RunInv(run, steps);
    SumNonNegative(Jobs().worker, s.workers);
    SumNonNegative(Jobs().input, s.input);
    SumOfBits(Jobs().output, s.output);
    SumOfBits(Jobs().collected, s.collected);
    if s.workers != [] {
      InputDrained(s);
    } else {
      NoWorkersNoResults(run, steps);
      SumOfBits(Sentinels().input, s.input);
    }
    forall id: nat | id < |s.tests|
      ensures Sum(PlacesOf(id).collected, s.collected) == 1
    {
      SumNonNegative(PlacesOf(id).worker, s.workers);
    }
  }

  // ---------- the verdict ----------

  datatype Status = INTERRUPTED | SKIP | PASS | FAIL | VALGR | CRASH

  // How a collected job is counted.
  function StatusOf(job: Job): Status {
    if job.isBreak then INTERRUPTED
    else if job.isSkip then SKIP
    else if job.returncode == 0 then PASS
    else if job.returncode == 1 then FAIL
    else if job.returncode == 2 then VALGR
    else CRASH
  }

  ghost function Count(status: Status, jobs: seq<Job>): int {
    Sum((j: Job) => Bit(StatusOf(j) == status), jobs)
  }

  datatype Tally = Tally(passed: int, failed: int, skipped: int, crashed: int, valgrind: int)

  // The loop that collects and classifies as many jobs as were dispatched, and the exit code.
  method Verdict(collected: seq<Job>, totalTests: nat) returns (t: Tally, exitCode: int)
    ensures t == Tally(Count(PASS, collected), Count(FAIL, collected), Count(SKIP, collected),
                       Count(CRASH, collected), Count(VALGR, collected))
    ensures exitCode == if Count(PASS, collected) + Count(SKIP, collected) == totalTests then 0 else 1
  {
    var passed, failed, skipped, crashed, valgrind := 0, 0, 0, 0, 0;
    for i := 0 to |collected|
      invariant passed == Count(PASS, collected[..i]) && failed == Count(FAIL, collected[..i])
      invariant skipped == Count(SKIP, collected[..i]) && crashed == Count(CRASH, collected[..i])
      invariant valgrind == Count(VALGR, collected[..i])
    {
      var job := collected[i];
      CountOneMore(collected, i);
      if job.isBreak {
        continue;
      }
      if job.isSkip {
        skipped := skipped + 1;
      } else if job.returncode == 0 {
        passed := passed + 1;
      } else if job.returncode == 1 {
        failed := failed + 1;
      } else if job.returncode == 2 {
        valgrind := valgrind + 1;
      } else {
        crashed := crashed + 1;
      }
    }
    assert collected[..|collected|] == collected;
    t := Tally(passed, failed, skipped, crashed, valgrind);
    exitCode := if passed + skipped == totalTests then 0 else 1;
  }

  lemma CountOneMore(jobs: seq<Job>, i: nat)
    requires i < |jobs|
    ensures forall status :: Count(status, jobs[..i + 1]) == Count(status, jobs[..i]) + Bit(StatusOf(jobs[i]) == status)
  {
    assert jobs[..i + 1] == jobs[..i] + [jobs[i]];
    forall status
      ensures Count(status, jobs[..i + 1]) == Count(status, jobs[..i]) + Bit(StatusOf(jobs[i]) == status)
    {
      SumAppend((j: Job) => Bit(StatusOf(j) == status), jobs[..i], [jobs[i]]);
    }
  }

  // Every job is counted under one status, so all are passed or skipped when these two counts
  // make up the whole.
  lemma {:induction false} StatusesPartition(jobs: seq<Job>)
    ensures Count(INTERRUPTED, jobs) + Count(SKIP, jobs) + Count(PASS, jobs) + Count(FAIL, jobs)
            + Count(VALGR, jobs) + Count(CRASH, jobs) == |jobs|
    ensures Count(PASS, jobs) + Count(SKIP, jobs) <= |jobs|
    ensures Count(PASS, jobs) + Count(SKIP, jobs) == |jobs| <==> forall j :: j in jobs ==> StatusOf(j) in {PASS, SKIP}
  {
    if jobs != [] {
      assert forall j :: j in jobs <==> j == jobs[0] || j in jobs[1..];
      StatusesPartition(jobs[1..]);
      hide Sum;
      forall status
        ensures Count(status, jobs) == Bit(StatusOf(jobs[0]) == status) + Count(status, jobs[1..])
      {
        SumAppend((j: Job) => Bit(StatusOf(j) == status), [jobs[0]], jobs[1..]);
        assert [jobs[0]] + jobs[1..] == jobs;
        SumOne((j: Job) => Bit(StatusOf(j) == status), jobs[0]);
      }
    }
  }

  // The job was reported without an interrupt, and was skipped or returned 0.
  ghost predicate Fine(s: State, j: Job) {
    j.id < |s.tests| && !j.isBreak && (s.tests[j.id].isSkip || j.returncode == 0)
  }

  // The verdict on a completed run: the counters and the interrupted jobs make up all tests, and
  // the exit code is 0 exactly if every test was reported uninterrupted and was skipped or
  // returned 0. Without an interrupt no job is reported as interrupted.
  lemma CompletedVerdict(run: seq<State>, steps: seq<Step>)
    requires IsRun(run, steps) && Complete(run[|steps|])
    ensures var s := run[|steps|];
      && Count(INTERRUPTED, s.collected) + Count(SKIP, s.collected) + Count(PASS, s.collected)
         + Count(FAIL, s.collected) + Count(VALGR, s.collected) + Count(CRASH, s.collected) == |s.tests|
      && (Count(PASS, s.collected) + Count(SKIP, s.collected) == |s.tests| <==>
            forall j :: j in s.collected ==> Fine(s, j))
      && (!s.threadExit ==> Count(INTERRUPTED, s.collected) == 0)
  {
    var s := run[|steps|];
    CompletedRun(run, steps);
    StatusesPartition(s.collected);
    SumNonNegative((j: Job) => Bit(StatusOf(j) == INTERRUPTED), s.collected);
    forall j | j in s.collected
      ensures ReportOn(s, j)
    {
      var i :| 0 <= i < |s.collected| && s.collected[i] == j;
    }
  }

  // The number of worker threads: the processors of the machine, limited by a nonzero --jobs option.
  function Workers(processors: nat, limit: int): (n: nat)
    ensures limit < 0 ==> n == 0
    ensures n <= processors && (limit > 0 ==> n <= limit)
    ensures limit >= 0 ==> n == processors || (limit > 0 && n == limit)
  {
    var n := if limit == 0 || processors < limit then processors else limit;
    if n < 0 then 0 else n
  }

  // A dispatcher that has jobs can finish exactly if --jobs is not negative.
  lemma FinishesIffLimitNotNegative(processors: nat, limit: int, run: seq<State>, steps: seq<Step>)
    requires processors > 0 && IsRun(run, steps) && |run[0].workers| == Workers(processors, limit)
    requires forall step: Step :: Enabled(run[|steps|], step) ==> step.Interrupt?
    ensures Complete(run[|steps|]) <==> limit >= 0 || run[0].tests == []
  {
    StuckIffNoWorkers(run, steps);
  }
}
