/**
 * The render thread pool (common/RenderTiles.hpp) as atomic steps: what a thread does from taking
 * the mutex to giving it up, by returning, waiting, or running a job.
 */
module RenderPool {

  type Job = nat

  /** The thread that calls run(): outside it, in a job, or waiting for completion. */
  datatype Main = Outside | InJob(job: Job) | Waiting(notified: bool)

  /** A worker: not yet started, in the condition wait, out of it but without the mutex, in a job, gone. */
  datatype Worker = Starting | Blocked | Woken | Busy(job: Job) | Exited

  /** `pushed` and `done` are all jobs ever pushed and run; `failed` records a failed assertion. */
  datatype Pool = Pool(
    work: seq<Job>, working: int, running: bool, shutdown: bool, useThreads: bool,
    main: Main, workers: seq<Worker>, pushed: multiset<Job>, done: multiset<Job>, failed: bool)

  datatype Action =
    | PushWork(job: Job)
    | Run
    | MainDone
    | MainWake
    | Stop
    | WorkerStart(i: nat)
    | Spurious(i: nat)
    | WorkerRun(i: nat)
    | WorkerDone(i: nat)

  function Init(threads: nat): Pool {
    Pool([], 0, false, false, false, Outside, seq(threads, _ => Starting), multiset{}, multiset{}, false)
  }

  /** How the pool is used: jobs per run at most, and whether waits may end without a notification. */
  datatype Usage = Usage(maxJobs: nat, spurious: bool)

  predicate Enabled(p: Pool, a: Action, u: Usage) {
    match a
    case PushWork(_) => p.main.Outside? && !p.shutdown && |p.work| < u.maxJobs
    case Run => p.main.Outside? && !p.shutdown
    case MainDone => p.main.InJob?
    case MainWake => p.main.Waiting? && (p.main.notified || u.spurious)
    case Stop => p.main.Outside? && !p.shutdown
    case WorkerStart(i) => i < |p.workers| && p.workers[i].Starting?
    case Spurious(i) => i < |p.workers| && p.workers[i].Blocked? && u.spurious
    case WorkerRun(i) => i < |p.workers| && p.workers[i].Woken?
    case WorkerDone(i) => i < |p.workers| && p.workers[i].Busy?
  }

  function NotifyAll(ws: seq<Worker>): (r: seq<Worker>)
    ensures |r| == |ws|
    ensures forall i :: 0 <= i < |ws| ==> r[i] == if ws[i].Blocked? then Woken else ws[i]
  {
    seq(|ws|, i requires 0 <= i < |ws| => if ws[i].Blocked? then Woken else ws[i])
  }

  function Return(p: Pool): Pool {
    p.(running := false, main := Outside, failed := p.failed || p.working != 0 || p.work != [])
  }

  /** The rest of run() once the mutex is held: take the next job, or wait for the workers, or return. */
  function MainLoop(p: Pool): Pool {
    if p.work != [] then
      p.(work := p.work[1..], working := p.working + 1, main := InJob(p.work[0]), failed := p.failed || !p.running)
    else if p.useThreads && p.working > 0 then p.(main := Waiting(false))
    else Return(p)
  }

  function RunStep(p: Pool): Pool {
    var useThreads := |p.workers| > 1 && |p.work| > 1;
    MainLoop(p.(running := true, useThreads := useThreads,
                workers := if useThreads then NotifyAll(p.workers) else p.workers,
                failed := p.failed || p.running || p.working != 0))
  }

  /** A worker with the mutex: take the next job, or go back to waiting, or leave. */
  function WorkerLoop(p: Pool, i: nat): Pool
    requires i < |p.workers|
  {
    if !p.shutdown && p.work != [] && p.running then
      p.(work := p.work[1..], working := p.working + 1, workers := p.workers[i := Busy(p.work[0])])
    else p.(workers := p.workers[i := if p.shutdown then Exited else Blocked])
  }

  /** A worker is back from its job and has the mutex. */
  function BackFromJob(p: Pool, i: nat): Pool
    requires i < |p.workers| && p.workers[i].Busy?
  {
    var complete := p.work == [] && p.working == 1;
    p.(working := p.working - 1, done := p.done + multiset{p.workers[i].job}, workers := p.workers[i := Woken],
       main := if complete && p.main.Waiting? then Waiting(true) else p.main)
  }

  function Step(p: Pool, a: Action, u: Usage): Pool
    requires Enabled(p, a, u)
  {
    match a
    case PushWork(job) =>
      p.(work := p.work + [job], pushed := p.pushed + multiset{job}, failed := p.failed || p.running || p.working != 0)
    case Run => RunStep(p)
    case MainDone => MainLoop(p.(working := p.working - 1, done := p.done + multiset{p.main.job}))
    case MainWake => if p.working == 0 && p.work == [] then Return(p) else p.(main := Waiting(false))
    case Stop => p.(shutdown := true, workers := NotifyAll(p.workers), failed := p.failed || p.working != 0)
    case WorkerStart(i) => p.(workers := p.workers[i := if p.shutdown then Exited else Blocked])
    case Spurious(i) => p.(workers := p.workers[i := Woken])
    case WorkerRun(i) => WorkerLoop(p, i)
    case WorkerDone(i) => WorkerLoop(BackFromJob(p, i), i)
  }

  ghost function Is(b: bool): nat { if b then 1 else 0 }

  /** How many workers are in a job, and in this job. */
  ghost function BusyNum(ws: seq<Worker>): nat {
    if ws == [] then 0 else Is(ws[0].Busy?) + BusyNum(ws[1..])
  }

  ghost function BusyWith(ws: seq<Worker>, j: Job): (n: nat)
    ensures n <= BusyNum(ws)
  {
    if ws == [] then 0 else Is(ws[0] == Busy(j)) + BusyWith(ws[1..], j)
  }

  lemma {:induction false} BusyUpdate(ws: seq<Worker>, i: nat, w: Worker)
    requires i < |ws|
    ensures BusyNum(ws[i := w]) == BusyNum(ws) - Is(ws[i].Busy?) + Is(w.Busy?)
    ensures forall j :: BusyWith(ws[i := w], j) == BusyWith(ws, j) - Is(ws[i] == Busy(j)) + Is(w == Busy(j))
  {
    if i == 0 {
      assert ws[i := w][1..] == ws[1..];
    } else {
      BusyUpdate(ws[1..], i - 1, w);
      assert ws[i := w][1..] == ws[1..][i - 1 := w];
    }
  }

  lemma {:induction false} BusyNotify(ws: seq<Worker>)
    ensures BusyNum(NotifyAll(ws)) == BusyNum(ws)
    ensures forall j :: BusyWith(NotifyAll(ws), j) == BusyWith(ws, j)
  {
    if ws != [] {
      assert NotifyAll(ws)[1..] == NotifyAll(ws[1..]);
      BusyNotify(ws[1..]);
    }
  }

  /** A job taken from the front is in the queue once less. */
  lemma TakeFront(work: seq<Job>)
    requires work != []
    ensures forall j :: multiset(work)[j] == multiset(work[1..])[j] + Is(work[0] == j)
  {
    assert work == [work[0]] + work[1..];
  }

  ghost predicate NoneWoken(ws: seq<Worker>) {
    forall i :: 0 <= i < |ws| ==> !ws[i].Woken?
  }

  ghost predicate NoneBlocked(ws: seq<Worker>) {
    forall i :: 0 <= i < |ws| ==> !ws[i].Blocked?
  }

  /** No job is lost or doubled, and _working counts the jobs being run. */
  ghost predicate Conserved(p: Pool) {
    && (forall j :: p.pushed[j] == p.done[j] + multiset(p.work)[j] + BusyWith(p.workers, j) + Is(p.main == InJob(j)))
    && p.working == BusyNum(p.workers) + Is(p.main.InJob?)
  }

  /** The pool may run jobs of this usage on this many workers. */
  predicate SafeUse(threads: nat, u: Usage) {
    threads != 1 || u.maxJobs <= 1 || !u.spurious
  }

  ghost predicate Inv(p: Pool, u: Usage) {
    && !p.failed && Conserved(p)
    && |p.work| <= u.maxJobs && SafeUse(|p.workers|, u)
    && (p.running <==> !p.main.Outside?)
    && (p.shutdown ==> !p.running && NoneBlocked(p.workers))
    && (!p.running ==> BusyNum(p.workers) == 0)
    && (p.running && !p.useThreads ==> BusyNum(p.workers) == 0 && (p.work == [] || NoneWoken(p.workers)))
    && (p.running && !p.useThreads && p.work != [] ==> |p.workers| == 0 || !u.spurious)
    && (|p.workers| == 1 && !u.spurious && !p.shutdown ==> NoneWoken(p.workers))
    && (p.useThreads ==> |p.workers| > 1)
    && (p.main.Waiting? ==> p.useThreads && p.work == [] && (p.main.notified <==> p.working == 0))
  }

  lemma InitInv(threads: nat, u: Usage)
    requires SafeUse(threads, u)
    ensures Inv(Init(threads), u)
  {
    NoBusyStarting(Init(threads).workers);
  }

  lemma {:induction false} NoBusyStarting(ws: seq<Worker>)
    requires forall i :: 0 <= i < |ws| ==> ws[i].Starting?
    ensures BusyNum(ws) == 0
  {
    if ws != [] {
      NoBusyStarting(ws[1..]);
    }
  }

  lemma MainLoopKeeps(p: Pool, u: Usage)
    requires p.main.Outside? || p.main.InJob?
    requires !p.failed && |p.work| <= u.maxJobs && SafeUse(|p.workers|, u) && p.running && !p.shutdown
    requires Conserved(p.(main := Outside))
    requires !p.useThreads ==> BusyNum(p.workers) == 0 && (|p.work| <= 1 || NoneWoken(p.workers))
    requires !p.useThreads && |p.work| > 1 ==> |p.workers| == 0 || !u.spurious
    requires (|p.workers| == 1 && !u.spurious ==> NoneWoken(p.workers)) && (p.useThreads ==> |p.workers| > 1)
    ensures Inv(MainLoop(p), u)
  {
    hide BusyNum, BusyWith, NoneWoken;
    if p.work != [] {
      TakeFront(p.work);
    }
  }

  lemma RunKeeps(p: Pool, u: Usage)
    requires Inv(p, u) && Enabled(p, Run, u)
    ensures Inv(RunStep(p), u)
  {
    hide BusyNum, BusyWith;
    var useThreads := |p.workers| > 1 && |p.work| > 1;
    if useThreads {
      BusyNotify(p.workers);
    }
    MainLoopKeeps(p.(running := true, useThreads := useThreads,
                     workers := if useThreads then NotifyAll(p.workers) else p.workers), u);
  }

  lemma WorkerLoopKeeps(p: Pool, i: nat, u: Usage)
    requires Inv(p, u) && i < |p.workers| && !p.workers[i].Busy?
    requires !p.running || p.useThreads || p.work == []
    ensures Inv(WorkerLoop(p, i), u)
  {
    hide BusyNum, BusyWith;
    if !p.shutdown && p.work != [] && p.running {
      BusyUpdate(p.workers, i, Busy(p.work[0]));
      TakeFront(p.work);
    } else {
      BusyUpdate(p.workers, i, if p.shutdown then Exited else Blocked);
    }
  }

  lemma WorkerRunKeeps(p: Pool, i: nat, u: Usage)
    requires Inv(p, u) && Enabled(p, WorkerRun(i), u)
    ensures Inv(WorkerLoop(p, i), u)
  {
    assert !p.running || p.useThreads || p.work == [] by { hide Conserved, BusyNum; }
    WorkerLoopKeeps(p, i, u);
  }

  lemma MainDoneKeeps(p: Pool, u: Usage)
    requires Inv(p, u) && Enabled(p, MainDone, u)
    ensures Inv(Step(p, MainDone, u), u)
  {
    DoneConserved(p);
    hide BusyNum, BusyWith, NoneWoken, NoneBlocked, MainLoop, Conserved;
    MainLoopKeeps(p.(working := p.working - 1, done := p.done + multiset{p.main.job}), u);
  }

  lemma DoneConserved(p: Pool)
    requires p.main.InJob? && Conserved(p)
    ensures Conserved(p.(working := p.working - 1, done := p.done + multiset{p.main.job}, main := Outside))
  {
    hide BusyNum, BusyWith;
  }

  lemma WorkerDoneKeeps(p: Pool, i: nat, u: Usage)
    requires Inv(p, u) && Enabled(p, WorkerDone(i), u)
    ensures Inv(WorkerLoop(BackFromJob(p, i), i), u)
  {
    hide BusyNum, BusyWith;
    BusyUpdate(p.workers, i, Woken);
    assert Inv(BackFromJob(p, i), u);
    WorkerLoopKeeps(BackFromJob(p, i), i, u);
  }

  lemma PushKeeps(p: Pool, job: Job, u: Usage)
    requires Inv(p, u) && Enabled(p, PushWork(job), u)
    ensures Inv(Step(p, PushWork(job), u), u)
  {
    hide BusyNum, BusyWith, NoneWoken, NoneBlocked;
  }

  lemma WakeKeeps(p: Pool, u: Usage)
    requires Inv(p, u) && Enabled(p, MainWake, u)
    ensures Inv(Step(p, MainWake, u), u)
  {
    hide BusyNum, BusyWith, NoneWoken, NoneBlocked;
  }

  lemma StopKeeps(p: Pool, u: Usage)
    requires Inv(p, u) && Enabled(p, Stop, u)
    ensures Inv(Step(p, Stop, u), u)
  {
    hide BusyNum, BusyWith;
    BusyNotify(p.workers);
  }

  lemma StartKeeps(p: Pool, i: nat, u: Usage)
    requires Inv(p, u) && Enabled(p, WorkerStart(i), u)
    ensures Inv(Step(p, WorkerStart(i), u), u)
  {
    hide BusyNum, BusyWith;
    BusyUpdate(p.workers, i, if p.shutdown then Exited else Blocked);
  }

  lemma SpuriousKeeps(p: Pool, i: nat, u: Usage)
    requires Inv(p, u) && Enabled(p, Spurious(i), u)
    ensures Inv(Step(p, Spurious(i), u), u)
  {
    hide BusyNum, BusyWith;
    BusyUpdate(p.workers, i, Woken);
  }

  /** Every step keeps the invariant, so no assertion of the pool fails. */
  lemma StepKeepsInv(p: Pool, a: Action, u: Usage)
    requires Inv(p, u) && Enabled(p, a, u)
    ensures Inv(Step(p, a, u), u)
  {
    hide Inv, RunStep, MainLoop, WorkerLoop, BackFromJob;
    match a {
      case Run => RunKeeps(p, u);
      case MainDone => MainDoneKeeps(p, u);
      case WorkerRun(i) => WorkerRunKeeps(p, i, u);
      case WorkerDone(i) => WorkerDoneKeeps(p, i, u);
      case PushWork(job) => PushKeeps(p, job, u);
      case MainWake => WakeKeeps(p, u);
      case Stop => StopKeeps(p, u);
      case WorkerStart(i) => StartKeeps(p, i, u);
      case Spurious(i) => SpuriousKeeps(p, i, u);
    }
  }

  /** A run from one state to another: every action is enabled where it happens. */
  ghost predicate Goes(from: Pool, u: Usage, actions: seq<Action>, p: Pool) {
    if actions == [] then p == from
    else
      var n := |actions| - 1;
      exists before :: Goes(from, u, actions[..n], before) && Enabled(before, actions[n], u)
        && p == Step(before, actions[n], u)
  }

  /** A run of the pool with this many threads. */
  ghost predicate Reaches(threads: nat, u: Usage, actions: seq<Action>, p: Pool) { Goes(Init(threads), u, actions, p) }

  lemma {:induction false} GoesKeepsInv(from: Pool, u: Usage, actions: seq<Action>, p: Pool)
    requires Inv(from, u) && Goes(from, u, actions, p)
    ensures Inv(p, u) && |p.workers| == |from.workers|
    decreases |actions|
  {
    if actions != [] {
      hide Inv, Step, Enabled;
      var n := |actions| - 1;
      var before :| Goes(from, u, actions[..n], before) && Enabled(before, actions[n], u)
        && p == Step(before, actions[n], u);
      GoesKeepsInv(from, u, actions[..n], before);
      StepKeepsInv(before, actions[n], u);
      SameThreads(before, actions[n], u);
    }
  }

  lemma RunKeepsInv(threads: nat, u: Usage, actions: seq<Action>, p: Pool)
    requires Reaches(threads, u, actions, p) && SafeUse(threads, u)
    ensures Inv(p, u) && |p.workers| == threads
  {
    hide Inv;
    InitInv(threads, u);
    GoesKeepsInv(Init(threads), u, actions, p);
  }

  lemma SameThreads(p: Pool, a: Action, u: Usage)
    requires Enabled(p, a, u)
    ensures |Step(p, a, u).workers| == |p.workers|
  {
  }

  /** No assertion fails, and outside run() every pushed job is still queued or has run exactly once, with no worker in one. */
  ghost predicate Sound(p: Pool) {
    && !p.failed
    && (p.main.Outside? ==>
          p.working == 0 && p.pushed == p.done + multiset(p.work) && forall i :: 0 <= i < |p.workers| ==> !p.workers[i].Busy?)
  }

  lemma {:induction false} NoneBusy(ws: seq<Worker>, i: nat)
    requires i < |ws| && BusyNum(ws) == 0
    ensures !ws[i].Busy?
  {
    if i > 0 {
      NoneBusy(ws[1..], i - 1);
    }
  }

  lemma InvSound(p: Pool, u: Usage)
    requires Inv(p, u)
    ensures Sound(p)
  {
    if p.main.Outside? {
      forall i | 0 <= i < |p.workers| ensures !p.workers[i].Busy? {
        NoneBusy(p.workers, i);
      }
      assert forall j :: p.pushed[j] == (p.done + multiset(p.work))[j];
    }
  }

  /** Jobs are taken in the order in which they were pushed. */
  lemma JobsInOrder(p: Pool, a: Action, u: Usage)
    requires Enabled(p, a, u)
    ensures a.PushWork? ==> Step(p, a, u).work == p.work + [a.job]
    ensures !a.PushWork? ==> Step(p, a, u).work == p.work || (p.work != [] && Step(p, a, u).work == p.work[1..])
    ensures |Step(p, a, u).work| < |p.work| ==>
      Step(p, a, u).main == InJob(p.work[0]) || exists i :: 0 <= i < |p.workers| && Step(p, a, u).workers[i] == Busy(p.work[0])
  {
    if |Step(p, a, u).work| < |p.work| && (a.WorkerRun? || a.WorkerDone?) {
      assert Step(p, a, u).workers[a.i] == Busy(p.work[0]);
    }
  }

  /** With workers and jobs enough run() leaves no worker waiting, and takes the first job itself. */
  lemma RunNotifies(p: Pool, u: Usage)
    requires Enabled(p, Run, u) && |p.workers| > 1 && |p.work| > 1
    ensures NoneBlocked(Step(p, Run, u).workers) && Step(p, Run, u).main == InJob(p.work[0]) && Step(p, Run, u).work == p.work[1..]
    ensures forall i :: 0 <= i < |p.workers| && p.workers[i].Blocked? ==> Step(p, Run, u).workers[i].Woken?
  {
  }

  /** The step that ends run(): everything pushed has run, exactly once, and no worker is in a job. */
  lemma RunReturns(threads: nat, u: Usage, actions: seq<Action>, p: Pool, a: Action)
    requires Reaches(threads, u, actions, p) && SafeUse(threads, u) && Enabled(p, a, u)
    requires var q := Step(p, a, u); !q.running && (p.running || a.Run?)
    ensures var q := Step(p, a, u); Sound(q) && q.main.Outside? && q.work == [] && q.pushed == q.done
  {
    hide Inv, Step, Reaches, Enabled, Sound;
    RunKeepsInv(threads, u, actions, p);
    RunningInside(p, u);
    StepKeepsInv(p, a, u);
    ReturnsEmpty(p, a, u);
    InvSound(Step(p, a, u), u);
    SoundEmpty(Step(p, a, u));
  }

  lemma ReturnsEmpty(p: Pool, a: Action, u: Usage)
    requires Enabled(p, a, u) && (p.running <==> !p.main.Outside?)
    requires var q := Step(p, a, u); !q.running && (p.running || a.Run?)
    ensures var q := Step(p, a, u); q.main.Outside? && q.work == []
  {
  }

  lemma SoundEmpty(p: Pool)
    requires Sound(p) && p.main.Outside? && p.work == []
    ensures p.pushed == p.done
  {
    assert p.done + multiset([]) == p.done;
  }

  lemma RunningInside(p: Pool, u: Usage)
    requires Inv(p, u)
    ensures p.running <==> !p.main.Outside?
    ensures p.working >= 0 && (p.running ==> !p.shutdown) && (p.main.Waiting? ==> p.work == [] && (p.main.notified <==> p.working == 0))
  {
    hide BusyNum, BusyWith, NoneWoken, NoneBlocked;
  }

  ghost function Awake(ws: seq<Worker>): nat {
    if ws == [] then 0 else Is(ws[0].Starting? || ws[0].Woken?) + Awake(ws[1..])
  }

  lemma {:induction false} AwakeUpdate(ws: seq<Worker>, i: nat, w: Worker)
    requires i < |ws|
    ensures Awake(ws[i := w]) == Awake(ws) - Is(ws[i].Starting? || ws[i].Woken?) + Is(w.Starting? || w.Woken?)
  {
    if i == 0 {
      assert ws[i := w][1..] == ws[1..];
    } else {
      AwakeUpdate(ws[1..], i - 1, w);
      assert ws[i := w][1..] == ws[1..][i - 1 := w];
    }
  }

  lemma {:induction false} SomeBusy(ws: seq<Worker>) returns (i: nat)
    requires BusyNum(ws) > 0
    ensures i < |ws| && ws[i].Busy?
  {
    if ws[0].Busy? {
      i := 0;
    } else {
      var k := SomeBusy(ws[1..]);
      i := k + 1;
    }
  }

  /** A step that is not a wait ending without a notification. */
  predicate Real(p: Pool, a: Action) {
    !a.Spurious? && (a.MainWake? ==> p.main.Waiting? && p.main.notified)
  }

  /** No wake-up is lost: while run() has not returned, some real step is always possible. */
  lemma NeverStuck(p: Pool, u: Usage) returns (a: Action)
    requires Inv(p, u) && p.running
    ensures Enabled(p, a, u) && Real(p, a)
  {
    if p.main.InJob? {
      a := MainDone;
    } else if p.main.notified {
      a := MainWake;
    } else {
      var i := SomeBusy(p.workers);
      a := WorkerDone(i);
    }
  }

  /** A bound on the steps still to come: taking and ending each job, and going back to wait. */
  ghost function WorkLeft(p: Pool): int { 2 * |p.work| + p.working + Awake(p.workers) }

  /** Every real step during run() ends it or lowers the bound; a spurious wake-up raises it by one at most. */
  lemma StepsRunOut(p: Pool, a: Action, u: Usage)
    requires Inv(p, u) && p.running && Enabled(p, a, u)
    ensures var q := Step(p, a, u); !q.running || WorkLeft(q) <= WorkLeft(p) + (if a.Spurious? then 1 else if Real(p, a) then -1 else 0)
  {
    RunningInside(p, u);
    hide Inv, Awake;
    match a {
      case WorkerStart(i) => AwakeUpdate(p.workers, i, Blocked);
      case Spurious(i) => AwakeUpdate(p.workers, i, Woken);
      case WorkerRun(i) => WorkerRunsOut(p, i);
      case WorkerDone(i) => DoneRunsOut(p, i);
      case _ =>
    }
  }

  lemma WorkerRunsOut(p: Pool, i: nat)
    requires i < |p.workers| && p.workers[i].Woken? && !p.shutdown
    ensures WorkLeft(WorkerLoop(p, i)) < WorkLeft(p)
  {
    hide Awake;
    AwakeUpdate(p.workers, i, Blocked);
    if p.work != [] {
      AwakeUpdate(p.workers, i, Busy(p.work[0]));
    }
  }

  lemma DoneRunsOut(p: Pool, i: nat)
    requires i < |p.workers| && p.workers[i].Busy? && !p.shutdown
    ensures WorkLeft(WorkerLoop(BackFromJob(p, i), i)) < WorkLeft(p)
  {
    hide Awake;
    var back := BackFromJob(p, i);
    assert back.workers[i := Blocked] == p.workers[i := Blocked];
    AwakeUpdate(p.workers, i, Blocked);
    if p.work != [] {
      assert back.workers[i := Busy(p.work[0])] == p.workers[i := Busy(p.work[0])];
      AwakeUpdate(p.workers, i, Busy(p.work[0]));
    }
  }

  /** How often a worker wakes up without a notification. */
  ghost function SpuriousIn(actions: seq<Action>): nat {
    if actions == [] then 0 else SpuriousIn(actions[..|actions| - 1]) + Is(actions[|actions| - 1].Spurious?)
  }

  /** Steps that are no wake-ups: of a thread that takes or ends a job, or goes to wait. */
  ghost function StepsIn(actions: seq<Action>): nat {
    if actions == [] then 0
    else StepsIn(actions[..|actions| - 1]) + Is(!actions[|actions| - 1].Spurious? && !actions[|actions| - 1].MainWake?)
  }

  ghost predicate OneRun(actions: seq<Action>) { forall i :: 0 <= i < |actions| ==> !actions[i].Run? }

  lemma RunsOnlyByRun(p: Pool, a: Action, u: Usage)
    requires Inv(p, u) && Enabled(p, a, u) && !a.Run? && Step(p, a, u).running
    ensures p.running
  {
    RunningInside(p, u);
    hide Inv;
  }

  /** While run() has not returned, the steps so far and those still to come are as many as there were at most, and one for each spurious wake-up. */
  lemma {:induction false} StepsBounded(from: Pool, u: Usage, actions: seq<Action>, p: Pool)
    requires Inv(from, u) && Goes(from, u, actions, p) && OneRun(actions) && p.running
    ensures from.running && StepsIn(actions) + WorkLeft(p) <= WorkLeft(from) + SpuriousIn(actions)
    decreases |actions|
  {
    if actions != [] {
      hide Inv, Step, Enabled, WorkLeft;
      var n := |actions| - 1;
      var before :| Goes(from, u, actions[..n], before) && Enabled(before, actions[n], u) && p == Step(before, actions[n], u);
      GoesKeepsInv(from, u, actions[..n], before);
      RunsOnlyByRun(before, actions[n], u);
      StepsBounded(from, u, actions[..n], before);
      StepsRunOut(before, actions[n], u);
    }
  }

  /**
   * From a reachable state, in any schedule: after more steps than twice the jobs queued, those
   * being run, the workers and the spurious wake-ups together, run() has returned.
   */
  lemma RunEnds(threads: nat, past: seq<Action>, from: Pool, u: Usage, actions: seq<Action>, p: Pool)
    requires Reaches(threads, u, past, from) && SafeUse(threads, u) && Goes(from, u, actions, p) && OneRun(actions)
    requires StepsIn(actions) > 2 * |from.work| + from.working + |from.workers| + SpuriousIn(actions)
    ensures !p.running
  {
    hide Inv, Goes;
    RunKeepsInv(threads, u, past, from);
    if p.running {
      StepsBounded(from, u, actions, p);
      GoesKeepsInv(from, u, actions, p);
      RunningInside(p, u);
      AwakeBound(from.workers);
    }
  }

  lemma {:induction false} AwakeBound(ws: seq<Worker>)
    ensures Awake(ws) <= |ws|
  {
    if ws != [] {
      AwakeBound(ws[1..]);
    }
  }

  /** And it can return, from every such state, without any spurious wake-up. */
  lemma RunCanEnd(threads: nat, past: seq<Action>, from: Pool, u: Usage) returns (actions: seq<Action>, p: Pool)
    requires Reaches(threads, u, past, from) && SafeUse(threads, u)
    ensures Goes(from, u, actions, p) && SpuriousIn(actions) == 0 && OneRun(actions) && !p.running
  {
    hide Inv;
    RunKeepsInv(threads, u, past, from);
    actions, p := RunOn(from, [], from, u);
  }

  lemma {:induction false} RunOn(from: Pool, actions: seq<Action>, p: Pool, u: Usage) returns (more: seq<Action>, q: Pool)
    requires Inv(p, u) && Goes(from, u, actions, p) && SpuriousIn(actions) == 0 && OneRun(actions)
    ensures Goes(from, u, more, q) && SpuriousIn(more) == 0 && OneRun(more) && !q.running && Inv(q, u)
    decreases if p.running && WorkLeft(p) >= 0 then WorkLeft(p) + 1 else 0
  {
    hide Inv, Step, Enabled, WorkLeft, Goes;
    more, q := actions, p;
    if p.running {
      var a := NeverStuck(p, u);
      more, q := Then(from, u, actions, p, a);
      assert more[..|actions|] == actions;
      NoRunInside(p, a, u);
      StepKeepsInv(p, a, u);
      StepsRunOut(p, a, u);
      LeftBound(p, u);
      LeftBound(q, u);
      more, q := RunOn(from, more, q, u);
    }
  }

  lemma LeftBound(p: Pool, u: Usage)
    requires Inv(p, u)
    ensures WorkLeft(p) >= 0
  {
    RunningInside(p, u);
  }

  lemma NoRunInside(p: Pool, a: Action, u: Usage)
    requires Inv(p, u) && p.running && Enabled(p, a, u)
    ensures !a.Run?
  {
    RunningInside(p, u);
    hide Inv;
  }

  /** After stop() every worker that has not left can do so: none is left in a wait. */
  lemma StopReachesAll(p: Pool, u: Usage, i: nat)
    requires Inv(p, u) && p.shutdown && i < |p.workers| && !p.workers[i].Exited?
    ensures p.workers[i].Starting? || p.workers[i].Woken?
    ensures p.workers[i].Starting? ==> Step(p, WorkerStart(i), u).workers[i].Exited?
    ensures p.workers[i].Woken? ==> Step(p, WorkerRun(i), u).workers[i].Exited?
  {
    hide BusyWith;
    NoneBusy(p.workers, i);
  }

  lemma Then(from: Pool, u: Usage, actions: seq<Action>, p: Pool, a: Action) returns (more: seq<Action>, q: Pool)
    requires Goes(from, u, actions, p) && Enabled(p, a, u)
    ensures Goes(from, u, more, q) && q == Step(p, a, u) && more == actions + [a]
  {
    more, q := actions + [a], Step(p, a, u);
    assert more[..|actions|] == actions;
  }

  /** Two jobs pushed, and the one worker waiting. */
  lemma OneWorkerReady(u: Usage) returns (actions: seq<Action>, p: Pool)
    requires u.maxJobs >= 2
    ensures Reaches(1, u, actions, p) && p.main.Outside? && !p.running && !p.shutdown && p.working == 0
    ensures p.work == [0, 1] && p.workers == [Blocked]
  {
    actions, p := [], Init(1);
    assert Reaches(1, u, actions, p);
    hide Goes;
    actions, p := Then(Init(1), u, actions, p, PushWork(0));
    actions, p := Then(Init(1), u, actions, p, PushWork(1));
    actions, p := Then(Init(1), u, actions, p, WorkerStart(0));
  }

  /** The caller of run() is in one job, and the worker, woken by nobody, in the other. */
  lemma OneWorkerTakes(u: Usage) returns (actions: seq<Action>, p: Pool)
    requires u.maxJobs >= 2 && u.spurious
    ensures Reaches(1, u, actions, p) && p.main.InJob? && p.work == [] && p.working == 2 && !p.useThreads
  {
    hide Goes;
    actions, p := OneWorkerReady(u);
    actions, p := Then(Init(1), u, actions, p, Run);
    assert p.work == [1] && p.workers == [Blocked] && p.running;
    actions, p := Then(Init(1), u, actions, p, Spurious(0));
    actions, p := Then(Init(1), u, actions, p, WorkerRun(0));
  }

  /** One worker, two jobs, one spurious wake-up: run() returns while the worker is in a job. */
  lemma OneWorkerBreaks(u: Usage) returns (actions: seq<Action>, p: Pool)
    requires u.maxJobs >= 2 && u.spurious
    ensures Reaches(1, u, actions, p) && p.main.Outside? && p.working == 1 && p.failed && !Sound(p)
  {
    hide Goes;
    actions, p := OneWorkerTakes(u);
    actions, p := Then(Init(1), u, actions, p, MainDone);
  }

  /** The pool is sound in every run exactly when it is not a single worker with spurious wake-ups and runs of two jobs. */
  lemma SoundExactlyWhen(threads: nat, u: Usage)
    ensures (forall actions, p :: Reaches(threads, u, actions, p) ==> Sound(p)) <==> SafeUse(threads, u)
  {
    hide Reaches, Sound;
    if SafeUse(threads, u) {
      forall actions, p | Reaches(threads, u, actions, p) ensures Sound(p) {
        RunKeepsInv(threads, u, actions, p);
        InvSound(p, u);
      }
    } else {
      var actions, p := OneWorkerBreaks(u);
    }
  }
}
