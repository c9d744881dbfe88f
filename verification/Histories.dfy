/** What happens to each test on the way through a run of the dispatcher: the steps that look at the
    interrupt flag for it and that run it (worker_thread.run, simulation/test.py). */
module Histories {
  import opened Sums
  import opened Dispatcher

  // Step k is that of a worker which runs, or skips, test number id.
  ghost predicate WorkAt(run: seq<State>, steps: seq<Step>, k: nat, id: nat) {
    && k < |steps| && k < |run| && id < |run[0].tests|
    && steps[k].Work? && steps[k].w < |run[k].workers|
    && run[k].workers[steps[k].w] == Cleared(run[0].tests[id])
  }

  // Step k is that of a worker which looks at the interrupt flag before test number id.
  ghost predicate CheckAt(run: seq<State>, steps: seq<Step>, k: nat, id: nat) {
    && k < |steps| && k < |run| && id < |run[0].tests|
    && steps[k].CheckExit? && steps[k].w < |run[k].workers|
    && run[k].workers[steps[k].w] == Holding(run[0].tests[id])
  }

  // None of the first n steps runs the test.
  ghost predicate NotRun(run: seq<State>, steps: seq<Step>, n: nat, id: nat) {
    forall k: nat :: k < n ==> !WorkAt(run, steps, k, id)
  }

  // Exactly one of the first n steps runs the test, and this run returns the code.
  ghost predicate RunOnce(run: seq<State>, steps: seq<Step>, n: nat, id: nat, code: int) {
    exists k: nat ::
      && k < n && WorkAt(run, steps, k, id) && steps[k].returncode == code
      && forall m: nat :: m < n && WorkAt(run, steps, m, id) ==> m == k
  }

  ghost predicate NotChecked(run: seq<State>, steps: seq<Step>, n: nat, id: nat) {
    forall k: nat :: k < n ==> !CheckAt(run, steps, k, id)
  }

  // Exactly one of the first n steps looks at the flag for the test, and it comes after an
  // interrupt or not.
  ghost predicate CheckedOnce(run: seq<State>, steps: seq<Step>, n: nat, id: nat, interrupted: bool) {
    exists k: nat ::
      && k < n && CheckAt(run, steps, k, id) && (Interrupt in steps[..k] <==> interrupted)
      && forall m: nat :: m < n && CheckAt(run, steps, m, id) ==> m == k
  }

  ghost predicate Untouched(run: seq<State>, steps: seq<Step>, n: nat, id: nat) {
    NotRun(run, steps, n, id) && NotChecked(run, steps, n, id)
  }

  // The test was let through, and has not been run yet.
  ghost predicate LetThrough(run: seq<State>, steps: seq<Step>, n: nat, id: nat) {
    NotRun(run, steps, n, id) && CheckedOnce(run, steps, n, id, false)
  }

  // What the report says has happened: a job marked as interrupted met the flag after an interrupt
  // and was never run; any other met it before every interrupt, and was run once (or skipped), and
  // the return code in the report is the one which that run returned.
  ghost predicate Reported(run: seq<State>, steps: seq<Step>, n: nat, j: Job) {
    if j.isBreak then
      NotRun(run, steps, n, j.id) && CheckedOnce(run, steps, n, j.id, true)
    else
      && CheckedOnce(run, steps, n, j.id, false)
      && (j.isSkip || RunOnce(run, steps, n, j.id, j.returncode))
  }

  // What is to be true of a test or a report by the place where it is.
  datatype Marks = Marks(untouched: nat -> bool, letThrough: nat -> bool, reported: Job -> bool)

  ghost function HistoryMarks(run: seq<State>, steps: seq<Step>, n: nat): Marks {
    Marks((id: nat) => Untouched(run, steps, n, id), (id: nat) => LetThrough(run, steps, n, id),
          (j: Job) => Reported(run, steps, n, j))
  }

  ghost predicate MarkedWorker(m: Marks, w: Worker) {
    match w
    case AtGet => true
    case Holding(j) => m.untouched(j.id)
    case Cleared(j) => m.letThrough(j.id)
    case Ready(j) => m.reported(j)
    case Returned => true
  }

  ghost predicate Marked(m: Marks, s: State) {
    && (forall id: nat :: s.dispatched <= id < |s.tests| ==> m.untouched(id))
    && (forall i :: 0 <= i < |s.input| && !s.input[i].isBreak ==> m.untouched(s.input[i].id))
    && (forall w :: 0 <= w < |s.workers| ==> MarkedWorker(m, s.workers[w]))
    && (forall i :: 0 <= i < |s.output| ==> m.reported(s.output[i]))
    && (forall i :: 0 <= i < |s.collected| ==> m.reported(s.collected[i]))
  }

  // After n steps every job is where its history says.
  ghost predicate Trail(run: seq<State>, steps: seq<Step>, n: nat)
    requires n < |run| && n <= |steps|
  {
    && (run[n].threadExit <==> Interrupt in steps[..n])
    && Marked(HistoryMarks(run, steps, n), run[n])
  }

  // Step n makes no difference to the history of the test.
  ghost predicate Kept(run: seq<State>, steps: seq<Step>, n: nat, id: nat) {
    && (NotRun(run, steps, n, id) ==> NotRun(run, steps, n + 1, id))
    && (NotChecked(run, steps, n, id) ==> NotChecked(run, steps, n + 1, id))
    && (forall c :: RunOnce(run, steps, n, id, c) ==> RunOnce(run, steps, n + 1, id, c))
    && (forall b :: CheckedOnce(run, steps, n, id, b) ==> CheckedOnce(run, steps, n + 1, id, b))
  }

  lemma Elsewhere(run: seq<State>, steps: seq<Step>, n: nat, id: nat)
    requires !WorkAt(run, steps, n, id) && !CheckAt(run, steps, n, id)
    ensures Kept(run, steps, n, id)
  {
    hide WorkAt, CheckAt;
  }

  // A test that has not been run and is run by step n.
  lemma RunNow(run: seq<State>, steps: seq<Step>, n: nat, id: nat)
    requires WorkAt(run, steps, n, id) && NotRun(run, steps, n, id)
    ensures RunOnce(run, steps, n + 1, id, steps[n].returncode)
    ensures forall b :: CheckedOnce(run, steps, n, id, b) ==> CheckedOnce(run, steps, n + 1, id, b)
  {
    assert !CheckAt(run, steps, n, id);
  }

  lemma CheckedNow(run: seq<State>, steps: seq<Step>, n: nat, id: nat)
    requires CheckAt(run, steps, n, id) && NotChecked(run, steps, n, id)
    ensures CheckedOnce(run, steps, n + 1, id, Interrupt in steps[..n])
    ensures NotRun(run, steps, n, id) ==> NotRun(run, steps, n + 1, id)
  {
    assert !WorkAt(run, steps, n, id);
  }

  lemma NoneThere<T>(f: T -> int, s: seq<T>)
    requires (forall x :: f(x) >= 0) && Sum(f, s) <= 0
    ensures forall i :: 0 <= i < |s| ==> f(s[i]) == 0
  {
    SumNonNegative(f, s);
    assert forall i :: 0 <= i < |s| ==> s[i] in s;
  }

  // A job that a worker has is nowhere else.
  ghost predicate OnlyAt(s: State, w: nat, id: nat) {
    && id < s.dispatched
    && (forall i :: 0 <= i < |s.input| ==> s.input[i].id != id)
    && (forall v :: 0 <= v < |s.workers| && v != w && Busy(s.workers[v]) ==> s.workers[v].job.id != id)
    && (forall i :: 0 <= i < |s.output| ==> s.output[i].id != id)
    && (forall i :: 0 <= i < |s.collected| ==> s.collected[i].id != id)
  }

  lemma Alone(s: State, w: nat)
    requires Inv(s) && w < |s.workers| && Busy(s.workers[w])
    ensures OnlyAt(s, w, s.workers[w].job.id)
  {
    hide Fifo, InOrder, TestsOk, InputOk, ReportOn;
    var id := s.workers[w].job.id;
    var c := PlacesOf(id);
    var rest := s.workers[w := AtGet];
    assert id < |s.tests| && Total(c, s) == Bit(id < s.dispatched) by {
      assert WorkerOk(s, s.workers[w]);
      if s.workers[w].Ready? {
        TestOf(s, w);
      }
    }
    hide Contents, Conserved, WorkerOk;
    SumUpdate(c.worker, s.workers, w, AtGet);
    SumNonNegative(c.input, s.input);
    SumNonNegative(c.worker, rest);
    SumNonNegative(c.output, s.output);
    SumNonNegative(c.collected, s.collected);
    NoneThere(c.input, s.input);
    NoneThere(c.worker, rest);
    NoneThere(c.output, s.output);
    NoneThere(c.collected, s.collected);
    hide Sum;
    assert forall v :: 0 <= v < |s.workers| && v != w ==> rest[v] == s.workers[v];
  }

  lemma TestOf(s: State, w: nat)
    requires Contents(s) && w < |s.workers| && s.workers[w].Ready?
    ensures ReportOn(s, s.workers[w].job)
    ensures s.workers[w].job.id < |s.tests|
  {
    assert WorkerOk(s, s.workers[w]);
  }

  // What is true of a test, but for the one with the number except, stays true.
  ghost predicate StillMarked(m: Marks, m': Marks, except: int) {
    && (forall id: nat :: id != except && m.untouched(id) ==> m'.untouched(id))
    && (forall id: nat :: id != except && m.letThrough(id) ==> m'.letThrough(id))
    && (forall j: Job :: j.id != except && m.reported(j) ==> m'.reported(j))
  }

  // Steps that neither look at the flag nor run a test only move the jobs.
  lemma QuietStep(s: State, step: Step, m: Marks, m': Marks)
    requires TestsOk(s.tests) && Enabled(s, step) && !step.CheckExit? && !step.Work?
    requires Marked(m, s) && StillMarked(m, m', -1)
    ensures Marked(m', Apply(s, step))
  {
    assert step.Put? ==> MarkedWorker(m, s.workers[step.w]);
  }

  // A worker that looks at the flag or runs a test makes a difference to that test alone.
  lemma BusyStep(s: State, step: Step, m: Marks, m': Marks)
    requires Enabled(s, step) && (step.CheckExit? || step.Work?)
    requires OnlyAt(s, step.w, s.workers[step.w].job.id)
    requires Marked(m, s) && StillMarked(m, m', s.workers[step.w].job.id)
    requires MarkedWorker(m', NextWorker(s, step))
    ensures Marked(m', Apply(s, step))
  {
  }

  lemma StepOf(run: seq<State>, steps: seq<Step>, n: nat)
    requires IsRun(run, steps) && n < |steps|
    ensures Enabled(run[n], steps[n]) && run[n + 1] == Apply(run[n], steps[n])
  {
  }

  // What a look at the flag or a run adds to the history of its test.
  lemma TouchedNow(run: seq<State>, steps: seq<Step>, n: nat)
    requires IsRun(run, steps) && n < |steps| && Trail(run, steps, n)
    requires Inv(run[n]) && run[n].tests == run[0].tests
    requires steps[n].CheckExit? || steps[n].Work?
    ensures Enabled(run[n], steps[n])
    ensures var id := run[n].workers[steps[n].w].job.id;
      forall i: nat :: i != id ==> !WorkAt(run, steps, n, i) && !CheckAt(run, steps, n, i)
    ensures MarkedWorker(HistoryMarks(run, steps, n + 1), NextWorker(run[n], steps[n]))
  {
    hide Conserved, Fifo, InOrder;
    var s, w := run[n], steps[n].w;
    StepOf(run, steps, n);
    hide IsRun;
    var id := s.workers[w].job.id;
    assert WorkerOk(s, s.workers[w]) && TestsOk(s.tests);
    hide Inv;
    assert MarkedWorker(HistoryMarks(run, steps, n), s.workers[w]);
    hide Marked;
    if steps[n].Work? {
      RunNow(run, steps, n, id);
    } else {
      CheckedNow(run, steps, n, id);
    }
  }

  lemma StepTrail(run: seq<State>, steps: seq<Step>, n: nat)
    requires IsRun(run, steps) && n < |steps| && Trail(run, steps, n)
    requires Inv(run[n]) && run[n].tests == run[0].tests
    ensures Trail(run, steps, n + 1)
  {
    hide HistoryMarks, Marked, MarkedWorker, StillMarked, Conserved, Fifo, Contents, InOrder, Init;
    var s, step := run[n], steps[n];
    var m, m' := HistoryMarks(run, steps, n), HistoryMarks(run, steps, n + 1);
    StepOf(run, steps, n);
    hide IsRun;
    assert steps[..n + 1] == steps[..n] + [step];
    if step.CheckExit? || step.Work? {
      Alone(s, step.w);
      TouchedNow(run, steps, n);
      OthersKept(run, steps, n, s.workers[step.w].job.id);
      BusyStep(s, step, m, m');
    } else {
      OthersKept(run, steps, n, -1);
      QuietStep(s, step, m, m');
    }
  }

  lemma OthersKept(run: seq<State>, steps: seq<Step>, n: nat, except: int)
    requires forall i: nat :: i != except ==> !WorkAt(run, steps, n, i) && !CheckAt(run, steps, n, i)
    ensures StillMarked(HistoryMarks(run, steps, n), HistoryMarks(run, steps, n + 1), except)
  {
    hide WorkAt, CheckAt, Kept, Untouched, LetThrough, Reported;
    forall i: nat | i != except
      ensures Untouched(run, steps, n, i) ==> Untouched(run, steps, n + 1, i)
      ensures LetThrough(run, steps, n, i) ==> LetThrough(run, steps, n + 1, i)
    {
      Elsewhere(run, steps, n, i);
      KeptTest(run, steps, n, i);
    }
    forall j: Job | j.id != except
      ensures Reported(run, steps, n, j) ==> Reported(run, steps, n + 1, j)
    {
      Elsewhere(run, steps, n, j.id);
      KeptReport(run, steps, n, j);
    }
  }

  lemma KeptTest(run: seq<State>, steps: seq<Step>, n: nat, id: nat)
    requires Kept(run, steps, n, id)
    ensures Untouched(run, steps, n, id) ==> Untouched(run, steps, n + 1, id)
    ensures LetThrough(run, steps, n, id) ==> LetThrough(run, steps, n + 1, id)
  {
    hide NotRun, NotChecked, RunOnce, CheckedOnce;
  }

  lemma KeptReport(run: seq<State>, steps: seq<Step>, n: nat, j: Job)
    requires Kept(run, steps, n, j.id)
    ensures Reported(run, steps, n, j) ==> Reported(run, steps, n + 1, j)
  {
    hide NotRun, NotChecked, RunOnce, CheckedOnce;
  }

  // Along every run, the invariant and the histories hold after each step.
  lemma {:induction false} RunTrail(run: seq<State>, steps: seq<Step>, n: nat)
    requires IsRun(run, steps) && n <= |steps|
    ensures Inv(run[n]) && run[n].tests == run[0].tests && Trail(run, steps, n)
  {
    hide Inv, Apply, Enabled;
    if n == 0 {
      InitInv(run[0]);
    } else {
      RunTrail(run, steps, n - 1);
      hide HistoryMarks, Marked, Trail;
      StepOf(run, steps, n - 1);
      StepInv(run[n - 1], steps[n - 1]);
      StepTrail(run, steps, n - 1);
    }
  }

  // What is collected tells the truth: see Reported.
  lemma CollectedTruth(run: seq<State>, steps: seq<Step>)
    requires IsRun(run, steps)
    ensures forall j :: j in run[|steps|].collected ==> Reported(run, steps, |steps|, j)
  {
    RunTrail(run, steps, |steps|);
    hide Inv, IsRun, Reported;
  }

  // ---------- the two queues ----------

  // What the workers have taken from the input queue in the first n steps, in this order.
  ghost function Taken(run: seq<State>, steps: seq<Step>, n: nat): seq<Job>
    requires IsRun(run, steps) && n <= |steps|
  {
    if n == 0 then []
    else Taken(run, steps, n - 1) + if steps[n - 1].Get? then [run[n - 1].input[0]] else []
  }

  // What they have put on the output queue.
  ghost function PutBack(run: seq<State>, steps: seq<Step>, n: nat): seq<Job>
    requires IsRun(run, steps) && n <= |steps|
  {
    if n == 0 then []
    else
      PutBack(run, steps, n - 1)
      + if steps[n - 1].Put? then [run[n - 1].workers[steps[n - 1].w].job] else []
  }

  ghost function SentinelsSent(tests: nat, stopped: nat): seq<Job> {
    if stopped == 0 then [] else SentinelsSent(tests, stopped - 1) + [Job(tests + stopped - 1, true, false, 0)]
  }

  ghost predicate Passing(s: State, taken: seq<Job>, put: seq<Job>) {
    && s.dispatched <= |s.tests|
    && (s.stopped > 0 ==> s.dispatched == |s.tests|)
    && taken + s.input == s.tests[..s.dispatched] + SentinelsSent(|s.tests|, s.stopped)
    && put == s.collected + s.output
  }

  // What is taken from the front of a queue, or put at its end.
  lemma Queued<T>(taken: seq<T>, queue: seq<T>, x: T)
    ensures taken + (queue + [x]) == (taken + queue) + [x]
    ensures queue != [] ==> (taken + [queue[0]]) + queue[1..] == taken + queue
  {
  }

  lemma StepPassing(s: State, step: Step, taken: seq<Job>, put: seq<Job>)
    requires Passing(s, taken, put) && Enabled(s, step)
    ensures Passing(Apply(s, step), taken + (if step.Get? then [s.input[0]] else []),
                    put + if step.Put? then [s.workers[step.w].job] else [])
  {
    assert taken + [] == taken && put + [] == put;
    match step
    case Dispatch => DispatchPassing(s, taken, put);
    case Stop => StopPassing(s, taken, put);
    case Get(_) => Queued(taken, s.input, s.input[0]);
    case Put(w) => Queued(s.collected, s.output, s.workers[w].job);
    case Collect => Queued(s.collected, s.output, s.output[0]);
    case _ =>
  }

  lemma DispatchPassing(s: State, taken: seq<Job>, put: seq<Job>)
    requires Passing(s, taken, put) && Enabled(s, Dispatch)
    ensures Passing(Apply(s, Dispatch), taken, put)
  {
    var d := s.dispatched;
    Queued(taken, s.input, s.tests[d]);
    assert s.tests[..d] + [] == s.tests[..d] && s.tests[..d + 1] + [] == s.tests[..d] + [s.tests[d]];
  }

  lemma StopPassing(s: State, taken: seq<Job>, put: seq<Job>)
    requires Passing(s, taken, put) && Enabled(s, Stop)
    ensures Passing(Apply(s, Stop), taken, put)
  {
    Queued(taken, s.input, Sentinel(s));
    Queued(s.tests[..s.dispatched], SentinelsSent(|s.tests|, s.stopped), Sentinel(s));
  }

  // Both queues hand on first what was put there first: the tests in their order and then the
  // sentinels to the workers, and the reports to the main thread.
  lemma {:induction false} FirstInFirstOut(run: seq<State>, steps: seq<Step>, n: nat)
    requires IsRun(run, steps) && n <= |steps|
    ensures Passing(run[n], Taken(run, steps, n), PutBack(run, steps, n))
  {
    if n > 0 {
      FirstInFirstOut(run, steps, n - 1);
      hide Passing, Apply;
      StepOf(run, steps, n - 1);
      StepPassing(run[n - 1], steps[n - 1], Taken(run, steps, n - 1), PutBack(run, steps, n - 1));
    }
  }

  // ---------- the end of a run ----------

  // How a test ends, by its history alone: it met the flag after an interrupt; it was let through
  // and is one to skip; or it was let through and its run returned 0, 1, 2 or something else.
  ghost predicate Ended(run: seq<State>, steps: seq<Step>, id: nat, status: Status)
    requires |run| > 0 && id < |run[0].tests|
  {
    var n, skip := |steps|, run[0].tests[id].isSkip;
    if status == INTERRUPTED then
      CheckedOnce(run, steps, n, id, true) && NotRun(run, steps, n, id)
    else
      CheckedOnce(run, steps, n, id, false) &&
      match status
      case SKIP => skip
      case PASS => !skip && RunOnce(run, steps, n, id, 0)
      case FAIL => !skip && RunOnce(run, steps, n, id, 1)
      case VALGR => !skip && RunOnce(run, steps, n, id, 2)
      case CRASH => !skip && exists c :: c !in {0, 1, 2} && RunOnce(run, steps, n, id, c)
  }

  ghost function Number(p: nat -> bool, n: nat): int {
    if n == 0 then 0 else Number(p, n - 1) + Bit(p(n - 1))
  }

  // How many tests end so.
  ghost function EndedSo(run: seq<State>, steps: seq<Step>, status: Status): int
    requires |run| > 0
  {
    Number((id: nat) => id < |run[0].tests| && Ended(run, steps, id, status), |run[0].tests|)
  }

  lemma OneHistory(run: seq<State>, steps: seq<Step>, id: nat)
    ensures forall b, b' ::
      CheckedOnce(run, steps, |steps|, id, b) && CheckedOnce(run, steps, |steps|, id, b') ==> b == b'
    ensures forall c, c' ::
      RunOnce(run, steps, |steps|, id, c) && RunOnce(run, steps, |steps|, id, c') ==> c == c'
    ensures forall c :: RunOnce(run, steps, |steps|, id, c) ==> !NotRun(run, steps, |steps|, id)
  {
    hide WorkAt, CheckAt;
  }

  // The status that a report is counted under is how its test ended.
  lemma StatusIsEnd(run: seq<State>, steps: seq<Step>, j: Job, status: Status)
    requires |run| > 0 && j.id < |run[0].tests| && j.isSkip == run[0].tests[j.id].isSkip
    requires Reported(run, steps, |steps|, j)
    ensures StatusOf(j) == status <==> Ended(run, steps, j.id, status)
  {
    OneHistory(run, steps, j.id);
    hide RunOnce, NotRun, CheckedOnce;
  }

  lemma {:induction false} SameSum<T>(f: T -> int, g: T -> int, s: seq<T>)
    requires forall x :: x in s ==> f(x) == g(x)
    ensures Sum(f, s) == Sum(g, s)
  {
    if s != [] {
      SameSum(f, g, s[1..]);
    }
  }

  lemma {:induction false} SumOfSum<T>(f: T -> int, g: T -> int, h: T -> int, s: seq<T>)
    requires forall x :: h(x) == f(x) + g(x)
    ensures Sum(h, s) == Sum(f, s) + Sum(g, s)
  {
    if s != [] {
      SumOfSum(f, g, h, s[1..]);
    }
  }

  ghost function Counted(p: nat -> bool, n: nat): Job -> int {
    (j: Job) => if j.id < n && p(j.id) then 1 else 0
  }

  // With each number below n once among the jobs, counting jobs by number is counting numbers.
  lemma {:induction false} CountByNumber(p: nat -> bool, jobs: seq<Job>, n: nat)
    requires forall id: nat :: id < n ==> Sum(PlacesOf(id).collected, jobs) == 1
    ensures Sum(Counted(p, n), jobs) == Number(p, n)
  {
    if n == 0 {
      forall j: Job | j in jobs
        ensures Counted(p, n)(j) == 0
      {
        assert j.id >= 0;
      }
      SumNonNegative(Counted(p, n), jobs);
    } else {
      CountByNumber(p, jobs, n - 1);
      var last := (j: Job) => if j.id == n - 1 && p(j.id) then 1 else 0;
      SumOfSum(Counted(p, n - 1), last, Counted(p, n), jobs);
      if p(n - 1) {
        SameSum(last, PlacesOf(n - 1).collected, jobs);
      } else {
        SumNonNegative(last, jobs);
      }
    }
  }

  // Each test is counted once, under the status by which it ended.
  lemma CountedByEnd(run: seq<State>, steps: seq<Step>, status: Status)
    requires IsRun(run, steps) && Complete(run[|steps|])
    ensures Count(status, run[|steps|].collected) == EndedSo(run, steps, status)
  {
    var s, tests := run[|steps|], run[0].tests;
    var p := (id: nat) => id < |tests| && Ended(run, steps, id, status);
    CompletedRun(run, steps);
    RunTrail(run, steps, |steps|);
    CollectedTruth(run, steps);
    hide IsRun, Complete, Inv, Trail;
    forall j | j in s.collected
      ensures Bit(StatusOf(j) == status) == Counted(p, |tests|)(j)
    {
      var i :| 0 <= i < |s.collected| && s.collected[i] == j;
      assert ReportOn(s, j);
      StatusIsEnd(run, steps, j, status);
    }
    hide Ended, StatusOf, ReportOn;
    SameSum((j: Job) => Bit(StatusOf(j) == status), Counted(p, |tests|), s.collected);
    CountByNumber(p, s.collected, |tests|);
  }

  // Every test ends in one way.
  lemma EndsOnce(run: seq<State>, steps: seq<Step>, id: nat, status: Status, other: Status)
    requires |run| > 0 && id < |run[0].tests|
    requires Ended(run, steps, id, status) && Ended(run, steps, id, other)
    ensures status == other
  {
    OneHistory(run, steps, id);
    hide RunOnce, NotRun, CheckedOnce;
  }

  // Two kinds that exclude each other make up the whole exactly if each is of one of them.
  lemma {:induction false} NumberOfEither(p: nat -> bool, q: nat -> bool, n: nat)
    requires forall i: nat :: i < n ==> !(p(i) && q(i))
    ensures Number(p, n) + Number(q, n) <= n
    ensures Number(p, n) + Number(q, n) == n <==> forall i: nat :: i < n ==> p(i) || q(i)
  {
    if n > 0 {
      NumberOfEither(p, q, n - 1);
    }
  }

  // The test was skipped, or it was run once and that run returned 0, and in both cases it had met
  // the flag before every interrupt.
  ghost predicate Passed(run: seq<State>, steps: seq<Step>, id: nat)
    requires |run| > 0 && id < |run[0].tests|
  {
    && CheckedOnce(run, steps, |steps|, id, false)
    && (run[0].tests[id].isSkip || RunOnce(run, steps, |steps|, id, 0))
  }

  lemma PassedOrSkipped(run: seq<State>, steps: seq<Step>)
    requires |run| > 0
    ensures var n := |run[0].tests|;
      EndedSo(run, steps, PASS) + EndedSo(run, steps, SKIP) == n <==>
        forall id: nat :: id < n ==> Passed(run, steps, id)
  {
    var n := |run[0].tests|;
    var p := (id: nat) => id < n && Ended(run, steps, id, PASS);
    var q := (id: nat) => id < n && Ended(run, steps, id, SKIP);
    hide RunOnce, NotRun, CheckedOnce;
    assert forall id: nat :: id < n ==> (Passed(run, steps, id) <==> p(id) || q(id));
    NumberOfEither(p, q, n);
  }

  // The end of a completed run: each counter is the number of tests that ended so, and the exit
  // code is 0 exactly if each test was let through and was skipped or returned 0.
  method Finish(ghost run: seq<State>, ghost steps: seq<Step>, collected: seq<Job>, totalTests: nat)
    returns (t: Tally, exitCode: int)
    requires IsRun(run, steps) && Complete(run[|steps|])
    requires collected == run[|steps|].collected && totalTests == |run[|steps|].tests|
    ensures exitCode == 0 || exitCode == 1
    ensures totalTests == |run[0].tests|
    ensures exitCode == 0 <==> forall id: nat :: id < totalTests ==> Passed(run, steps, id)
    ensures t.passed == EndedSo(run, steps, PASS) && t.failed == EndedSo(run, steps, FAIL)
    ensures t.skipped == EndedSo(run, steps, SKIP) && t.crashed == EndedSo(run, steps, CRASH)
    ensures t.valgrind == EndedSo(run, steps, VALGR)
    ensures t.passed + t.failed + t.skipped + t.crashed + t.valgrind + EndedSo(run, steps, INTERRUPTED) == totalTests
  {
    hide Count, Complete, EndedSo, Passed;
    t, exitCode := Verdict(collected, totalTests);
    RunTrail(run, steps, |steps|);
    hide IsRun, Inv, Trail;
    CompletedVerdict(run, steps);
    forall status: Status
      ensures Count(status, collected) == EndedSo(run, steps, status)
    {
      CountedByEnd(run, steps, status);
    }
    PassedOrSkipped(run, steps);
  }

  // ---------- every outcome can come about ----------

  lemma Extended(run: seq<State>, steps: seq<Step>, step: Step) returns (run': seq<State>, steps': seq<Step>)
    requires IsRun(run, steps) && Enabled(run[|steps|], step)
    ensures IsRun(run', steps') && run'[0] == run[0]
    ensures run'[|steps'|] == Apply(run[|steps|], step)
  {
    run', steps' := run + [Apply(run[|steps|], step)], steps + [step];
  }

  // One worker and one test: the worker takes the test.
  lemma OneTaken(job: Job) returns (run: seq<State>, steps: seq<Step>)
    requires job.id == 0 && !job.isBreak
    ensures IsRun(run, steps) && run[0].tests == [job] && |run[0].workers| == 1
    ensures run[|steps|] == State([job], 1, 1, 0, [Job(1, true, false, 0)], [Holding(job)], [], [], false)
  {
    run, steps := [State([job], 0, 0, 0, [], [AtGet], [], [], false)], [];
    IsRunAtStart(run[0]);
    hide IsRun;
    run, steps := Extended(run, steps, Dispatch);
    run, steps := Extended(run, steps, Stop);
    run, steps := Extended(run, steps, Get(0));
  }

  // Whatever its run returns, and also when an interrupt comes first, there is a complete run that
  // reports just that.
  lemma EveryOutcome(skip: bool, interrupted: bool, code: int) returns (run: seq<State>, steps: seq<Step>)
    ensures IsRun(run, steps) && Complete(run[|steps|])
    ensures run[0].tests == [Job(0, false, skip, 0)] && |run[0].workers| == 1
    ensures run[|steps|].collected == [Job(0, interrupted, skip, if interrupted || skip then 0 else code)]
  {
    hide IsRun;
    run, steps := OneTaken(Job(0, false, skip, 0));
    if interrupted {
      run, steps := Extended(run, steps, Interrupt);
      run, steps := Extended(run, steps, CheckExit(0));
    } else {
      run, steps := Extended(run, steps, CheckExit(0));
      run, steps := Extended(run, steps, Work(0, code));
    }
    run, steps := Extended(run, steps, Put(0));
    run, steps := Extended(run, steps, Get(0));
    run, steps := Extended(run, steps, Collect);
    run, steps := Extended(run, steps, Join);
  }

  lemma IsRunAtStart(s: State)
    requires Init(s)
    ensures IsRun([s], [])
  {
  }
}
