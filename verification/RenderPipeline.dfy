/**
 * The pool and the delta cache together: the jobs that the pool hands to its threads are the
 * renders that the cache sees. A job starts on the cache when a thread takes it, whatever else is
 * going on there, and a thread ends a job when its message is out.
 */
module RenderPipeline {
  import opened Wrappers
  import opened Pixels
  import P = RenderPool
  import C = DeltaCache
  import opened DeltaStream

  /** What each job of the pool renders. */
  type Jobs = P.Job -> C.Job

  datatype System = System(pool: P.Pool, cache: C.State)

  datatype Action = PoolStep(a: P.Action) | CacheStep(c: C.Action)

  // ---- jobs at different locations --------------------------------------

  ghost predicate WorkApart(p: P.Pool, jobs: Jobs) {
    forall i, j :: 0 <= i < j < |p.work| ==> jobs(p.work[i]).loc != jobs(p.work[j]).loc
  }

  /** The location is not that of a job in the queue. */
  ghost predicate NotInWork(p: P.Pool, jobs: Jobs, loc: TileLocation) {
    forall k :: 0 <= k < |p.work| ==> jobs(p.work[k]).loc != loc
  }

  /** No two jobs that threads are in are at the same location, nor at that of a job in the queue. */
  ghost predicate HandsApart(p: P.Pool, jobs: Jobs) {
    && (p.main.InJob? ==> NotInWork(p, jobs, jobs(p.main.job).loc))
    && (forall i :: 0 <= i < |p.workers| && p.workers[i].Busy? ==> NotInWork(p, jobs, jobs(p.workers[i].job).loc))
    && (forall i :: 0 <= i < |p.workers| && p.workers[i].Busy? && p.main.InJob? ==> jobs(p.workers[i].job).loc != jobs(p.main.job).loc)
    && (forall i, k :: 0 <= i < k < |p.workers| && p.workers[i].Busy? && p.workers[k].Busy? ==>
          jobs(p.workers[i].job).loc != jobs(p.workers[k].job).loc)
  }

  ghost predicate Apart(p: P.Pool, jobs: Jobs) { WorkApart(p, jobs) && HandsApart(p, jobs) }

  /** Renders push no two jobs for the same location. */
  ghost predicate Pushable(p: P.Pool, jobs: Jobs, a: P.Action) {
    a.PushWork? ==> NotInWork(p, jobs, jobs(a.job).loc) && C.GoodPic(jobs(a.job).pic)
  }

  /** Some thread is in a job at the location. */
  ghost predicate InHand(p: P.Pool, jobs: Jobs, loc: TileLocation) {
    || (p.main.InJob? && jobs(p.main.job).loc == loc)
    || exists i :: 0 <= i < |p.workers| && p.workers[i].Busy? && jobs(p.workers[i].job).loc == loc
  }

  lemma TakeApart(p: P.Pool, jobs: Jobs)
    requires Apart(p, jobs) && p.work != []
    ensures var rest := p.(work := p.work[1..]); Apart(rest, jobs) && NotInWork(rest, jobs, jobs(p.work[0]).loc) && !InHand(p, jobs, jobs(p.work[0]).loc)
  {
    var rest := p.(work := p.work[1..]);
    assert forall k :: 0 <= k < |rest.work| ==> rest.work[k] == p.work[k + 1];
    forall loc | NotInWork(p, jobs, loc) ensures NotInWork(rest, jobs, loc) {
    }
  }

  lemma MainLoopApart(p: P.Pool, jobs: Jobs)
    requires Apart(p.(main := P.Outside), jobs) && (p.main.Outside? || p.main.InJob?)
    ensures Apart(P.MainLoop(p), jobs)
  {
    if p.work != [] {
      TakeApart(p.(main := P.Outside), jobs);
    }
  }

  lemma WorkerLoopApart(p: P.Pool, i: nat, jobs: Jobs)
    requires i < |p.workers| && Apart(p, jobs) && !p.workers[i].Busy?
    ensures Apart(P.WorkerLoop(p, i), jobs)
  {
    if p.work != [] {
      TakeApart(p, jobs);
    }
  }

  lemma NotifyApart(p: P.Pool, jobs: Jobs)
    requires Apart(p, jobs)
    ensures Apart(p.(workers := P.NotifyAll(p.workers)), jobs)
  {
  }

  lemma ReplaceApart(p: P.Pool, i: nat, w: P.Worker, jobs: Jobs)
    requires Apart(p, jobs) && i < |p.workers| && !w.Busy?
    ensures Apart(p.(workers := p.workers[i := w]), jobs)
  {
    var q := p.(workers := p.workers[i := w]);
    forall loc | NotInWork(p, jobs, loc) ensures NotInWork(q, jobs, loc) {
    }
  }

  /** Only what the queue, the workers and the caller are at counts. */
  lemma SameApart(p: P.Pool, q: P.Pool, jobs: Jobs)
    requires Apart(p, jobs) && q.work == p.work && q.workers == p.workers && (q.main.InJob? ==> q.main == p.main)
    ensures Apart(q, jobs)
  {
    forall loc | NotInWork(p, jobs, loc) ensures NotInWork(q, jobs, loc) {
    }
  }

  lemma PushApart(p: P.Pool, jobs: Jobs, a: P.Action, u: P.Usage)
    requires P.Inv(p, u) && a.PushWork? && P.Enabled(p, a, u) && Pushable(p, jobs, a) && Apart(p, jobs)
    ensures Apart(P.Step(p, a, u), jobs)
  {
    forall i | 0 <= i < |p.workers| ensures !p.workers[i].Busy? {
      P.NoneBusy(p.workers, i);
    }
  }

  lemma StepApart(p: P.Pool, jobs: Jobs, a: P.Action, u: P.Usage)
    requires P.Inv(p, u) && P.Enabled(p, a, u) && Pushable(p, jobs, a) && Apart(p, jobs)
    ensures Apart(P.Step(p, a, u), jobs)
  {
    hide P.Inv, Apart, P.MainLoop, P.WorkerLoop, P.NotifyAll;
    match a {
      case PushWork(_) => PushApart(p, jobs, a, u);
      case Run =>
        var useThreads := |p.workers| > 1 && |p.work| > 1;
        NotifyApart(p, jobs);
        var q := p.(running := true, useThreads := useThreads, workers := if useThreads then P.NotifyAll(p.workers) else p.workers,
                    failed := p.failed || p.running || p.working != 0);
        SameApart(if useThreads then p.(workers := P.NotifyAll(p.workers)) else p, q.(main := P.Outside), jobs);
        MainLoopApart(q, jobs);
      case MainDone =>
        var q := p.(working := p.working - 1, done := p.done + multiset{p.main.job});
        SameApart(p, q.(main := P.Outside), jobs);
        MainLoopApart(q, jobs);
      case MainWake => SameApart(p, P.Step(p, a, u), jobs);
      case Stop =>
        NotifyApart(p, jobs);
        SameApart(p.(workers := P.NotifyAll(p.workers)), P.Step(p, a, u), jobs);
      case WorkerStart(i) =>
        var w := if p.shutdown then P.Exited else P.Blocked;
        ReplaceApart(p, i, w, jobs);
      case Spurious(i) => ReplaceApart(p, i, P.Woken, jobs);
      case WorkerRun(i) => WorkerLoopApart(p, i, jobs);
      case WorkerDone(i) =>
        var back := P.BackFromJob(p, i);
        ReplaceApart(p, i, P.Woken, jobs);
        SameApart(p.(workers := p.workers[i := P.Woken]), back, jobs);
        WorkerLoopApart(back, i, jobs);
    }
  }

  // ---- what a step of the pool takes and ends ---------------------------

  /** A thread takes the first job of the queue. */
  predicate Takes(p: P.Pool, a: P.Action, u: P.Usage)
    requires P.Enabled(p, a, u)
  {
    |P.Step(p, a, u).work| < |p.work|
  }

  /** The job that a thread comes back from. */
  function Ended(p: P.Pool, a: P.Action, u: P.Usage): Option<P.Job>
    requires P.Enabled(p, a, u)
  {
    match a
    case MainDone => Some(p.main.job)
    case WorkerDone(i) => Some(p.workers[i].job)
    case _ => None
  }

  /** Of the jobs in hand only the one that ends leaves. */
  lemma HandsKeep(p: P.Pool, jobs: Jobs, a: P.Action, u: P.Usage, loc: TileLocation)
    requires P.Enabled(p, a, u) && InHand(p, jobs, loc) && (Ended(p, a, u).Some? ==> jobs(Ended(p, a, u).value).loc != loc)
    ensures InHand(P.Step(p, a, u), jobs, loc)
  {
    var q := P.Step(p, a, u);
    if p.main.InJob? && jobs(p.main.job).loc == loc {
      MainStays(p, a, u);
    } else {
      var i :| 0 <= i < |p.workers| && p.workers[i].Busy? && jobs(p.workers[i].job).loc == loc;
      assert a != P.WorkerDone(i);
      BusyStays(p, a, u, i);
      assert q.workers[i].Busy?;
    }
  }

  lemma MainStays(p: P.Pool, a: P.Action, u: P.Usage)
    requires P.Enabled(p, a, u) && p.main.InJob? && !a.MainDone?
    ensures P.Step(p, a, u).main == p.main
  {
  }

  lemma BusyStays(p: P.Pool, a: P.Action, u: P.Usage, i: nat)
    requires P.Enabled(p, a, u) && i < |p.workers| && p.workers[i].Busy? && a != P.WorkerDone(i)
    ensures |P.Step(p, a, u).workers| == |p.workers| && P.Step(p, a, u).workers[i] == p.workers[i]
  {
  }

  /** The one that is taken is in hand then, and no other at its location was before. */
  lemma HandsTake(p: P.Pool, jobs: Jobs, a: P.Action, u: P.Usage)
    requires P.Enabled(p, a, u) && Takes(p, a, u) && Apart(p, jobs)
    ensures p.work != [] && InHand(P.Step(p, a, u), jobs, jobs(p.work[0]).loc) && !InHand(p, jobs, jobs(p.work[0]).loc)
  {
    TakeApart(p, jobs);
    hide InHand, Apart;
    assert InHand(P.Step(p, a, u), jobs, jobs(p.work[0]).loc) by { TakenInHand(p, jobs, a, u); }
  }

  lemma TakenInHand(p: P.Pool, jobs: Jobs, a: P.Action, u: P.Usage)
    requires P.Enabled(p, a, u) && Takes(p, a, u)
    ensures p.work != [] && InHand(P.Step(p, a, u), jobs, jobs(p.work[0]).loc)
  {
    if a.WorkerRun? || a.WorkerDone? {
      assert P.Step(p, a, u).workers[a.i] == P.Busy(p.work[0]);
    }
  }

  // ---- the system -------------------------------------------------------

  ghost predicate Enabled(s: System, x: Action, jobs: Jobs, u: P.Usage, mode: TileMode) {
    match x
    case CacheStep(c) => !c.Start? && C.Enabled(s.cache, c, mode)
    case PoolStep(a) =>
      && P.Enabled(s.pool, a, u) && Pushable(s.pool, jobs, a)
      && (var ended := Ended(s.pool, a, u); ended.Some? ==> jobs(ended.value).loc !in s.cache.tasks)
  }

  /** The cache is not asked whether a job may start. */
  ghost function Step(s: System, x: Action, jobs: Jobs, u: P.Usage, mode: TileMode): System
    requires Enabled(s, x, jobs, u, mode)
  {
    match x
    case CacheStep(c) => s.(cache := C.Step(s.cache, c, mode))
    case PoolStep(a) =>
      System(P.Step(s.pool, a, u),
             if Takes(s.pool, a, u) then
               var job := jobs(s.pool.work[0]);
               s.cache.(tasks := s.cache.tasks[job.loc := C.Looking(job)])
             else s.cache)
  }

  ghost predicate Reaches(threads: nat, jobs: Jobs, u: P.Usage, mode: TileMode, actions: seq<Action>, s: System) {
    if actions == [] then s == System(P.Init(threads), C.INIT)
    else
      var n := |actions| - 1;
      exists before :: Reaches(threads, jobs, u, mode, actions[..n], before) && Enabled(before, actions[n], jobs, u, mode)
        && s == Step(before, actions[n], jobs, u, mode)
  }

  ghost predicate GoodWork(p: P.Pool, jobs: Jobs) {
    forall k :: 0 <= k < |p.work| ==> C.GoodPic(jobs(p.work[k]).pic)
  }

  /** Every render that the cache has under way is a job that a thread is in. */
  ghost predicate TasksInHand(s: System, jobs: Jobs) {
    forall loc :: loc in s.cache.tasks ==> InHand(s.pool, jobs, loc)
  }

  ghost predicate Inv(s: System, jobs: Jobs, u: P.Usage) {
    P.Inv(s.pool, u) && Apart(s.pool, jobs) && GoodWork(s.pool, jobs) && TasksInHand(s, jobs)
  }

  lemma GoodWorkKept(p: P.Pool, jobs: Jobs, a: P.Action, u: P.Usage)
    requires P.Enabled(p, a, u) && Pushable(p, jobs, a) && GoodWork(p, jobs)
    ensures GoodWork(P.Step(p, a, u), jobs)
  {
    hide C.GoodPic;
    var q := P.Step(p, a, u);
    assert a.PushWork? || q.work == p.work || (p.work != [] && q.work == p.work[1..]);
  }

  /** The location of a job that is taken is free: the cache's own condition for a start. */
  lemma StartsFree(s: System, jobs: Jobs, a: P.Action, u: P.Usage, mode: TileMode)
    requires Inv(s, jobs, u) && Enabled(s, PoolStep(a), jobs, u, mode) && Takes(s.pool, a, u)
    ensures s.pool.work != [] && C.Enabled(s.cache, C.Start(jobs(s.pool.work[0])), mode)
    ensures Step(s, PoolStep(a), jobs, u, mode).cache == C.Step(s.cache, C.Start(jobs(s.pool.work[0])), mode)
  {
    hide P.Inv, Apart, C.GoodPic, P.Step, P.Enabled, Ended, InHand, Takes;
    HandsTake(s.pool, jobs, a, u);
  }

  lemma PoolTasks(s: System, jobs: Jobs, a: P.Action, u: P.Usage, mode: TileMode)
    requires Inv(s, jobs, u) && Enabled(s, PoolStep(a), jobs, u, mode)
    ensures TasksInHand(Step(s, PoolStep(a), jobs, u, mode), jobs)
  {
    hide P.Inv, Apart, C.GoodPic, P.Step, P.Enabled, InHand, Takes;
    var s' := Step(s, PoolStep(a), jobs, u, mode);
    forall loc | loc in s'.cache.tasks ensures InHand(s'.pool, jobs, loc) {
      if loc in s.cache.tasks {
        HandsKeep(s.pool, jobs, a, u, loc);
      } else {
        HandsTake(s.pool, jobs, a, u);
      }
    }
  }

  lemma CacheTasks(s: C.State, c: C.Action, mode: TileMode)
    requires C.Enabled(s, c, mode) && !c.Start?
    ensures C.Step(s, c, mode).tasks.Keys <= s.tasks.Keys
  {
    hide C.GoodPic, IsDelta, FlatBytes;
  }

  lemma StepKeepsInv(s: System, x: Action, jobs: Jobs, u: P.Usage, mode: TileMode)
    requires Inv(s, jobs, u) && Enabled(s, x, jobs, u, mode)
    ensures Inv(Step(s, x, jobs, u, mode), jobs, u)
  {
    hide P.Inv, Apart, GoodWork, P.Step, P.Enabled, InHand, C.Step, C.Enabled, Pushable;
    match x {
      case CacheStep(c) => CacheTasks(s.cache, c, mode);
      case PoolStep(a) =>
        PoolTasks(s, jobs, a, u, mode);
        P.StepKeepsInv(s.pool, a, u);
        StepApart(s.pool, jobs, a, u);
        GoodWorkKept(s.pool, jobs, a, u);
    }
  }

  lemma InitInv(threads: nat, jobs: Jobs, u: P.Usage)
    requires P.SafeUse(threads, u)
    ensures Inv(System(P.Init(threads), C.INIT), jobs, u)
  {
    P.InitInv(threads, u);
    hide P.Inv;
  }

  /**
   * Every run of the system is a run of the cache on its own: no job ever starts while another one
   * at its location is under way.
   */
  lemma {:induction false} CacheRun(threads: nat, jobs: Jobs, u: P.Usage, mode: TileMode, actions: seq<Action>, s: System)
    returns (cached: seq<C.Action>)
    requires Reaches(threads, jobs, u, mode, actions, s) && P.SafeUse(threads, u)
    ensures Inv(s, jobs, u) && C.Reaches(cached, s.cache, mode)
    decreases |actions|
  {
    hide Inv, Step, Enabled, C.Goes, C.Enabled, C.Step, Takes;
    if actions == [] {
      InitInv(threads, jobs, u);
      cached := [];
      assert C.Goes(C.INIT, cached, s.cache, mode) by { NoSteps(mode); }
    } else {
      var n := |actions| - 1;
      var before :| Reaches(threads, jobs, u, mode, actions[..n], before) && Enabled(before, actions[n], jobs, u, mode)
        && s == Step(before, actions[n], jobs, u, mode);
      cached := CacheRun(threads, jobs, u, mode, actions[..n], before);
      StepKeepsInv(before, actions[n], jobs, u, mode);
      cached := CacheMove(cached, before, actions[n], jobs, u, mode);
    }
  }

  lemma NoSteps(mode: TileMode)
    ensures C.Goes(C.INIT, [], C.INIT, mode)
  {
  }

  lemma CacheMove(cached: seq<C.Action>, s: System, x: Action, jobs: Jobs, u: P.Usage, mode: TileMode) returns (more: seq<C.Action>)
    requires C.Reaches(cached, s.cache, mode) && Inv(s, jobs, u) && Enabled(s, x, jobs, u, mode)
    ensures C.Reaches(more, Step(s, x, jobs, u, mode).cache, mode)
  {
    hide Inv, C.Goes, C.Enabled, C.Step, Takes, P.Step, P.Enabled;
    var next;
    match x {
      case CacheStep(c) => more, next := C.Then(C.INIT, cached, s.cache, c, mode);
      case PoolStep(a) =>
        if Takes(s.pool, a, u) {
          StartsFree(s, jobs, a, u, mode);
          more, next := C.Then(C.INIT, cached, s.cache, C.Start(jobs(s.pool.work[0])), mode);
        } else {
          more := cached;
        }
    }
  }

  /**
   * The whole pipeline: whatever the schedule of the pool's threads, no assertion of pool or cache
   * fails, and at every location something was sent for the client shows the picture of the last
   * message if and only if no delta was sent on top of a keyframe of odd width.
   */
  lemma PipelineShowsLastPicture(threads: nat, jobs: Jobs, u: P.Usage, mode: TileMode, actions: seq<Action>, s: System,
                                 loc: TileLocation, show: Pixel -> Pixel)
    requires Reaches(threads, jobs, u, mode, actions, s) && P.SafeUse(threads, u) && C.Log(s.cache, loc) != []
    ensures !s.pool.failed && !s.cache.failed && loc in s.cache.last
    ensures ReceiveAll(show, C.Log(s.cache, loc)) == Some(MapTile(show, WireTile(s.cache.last[loc].tile, mode)))
            <==> C.Synced(C.Log(s.cache, loc))
  {
    hide C.Reaches, Reaches, C.Synced, C.Log;
    var cached := CacheRun(threads, jobs, u, mode, actions, s);
    C.ClientShowsLastPicture(cached, s.cache, mode, loc, show);
    P.InvSound(s.pool, u);
  }

  // ---- and when it is not so --------------------------------------------

  /** Runs of the pool alone in which no render pushes two jobs for the same location. */
  ghost predicate PoolReaches(threads: nat, jobs: Jobs, u: P.Usage, actions: seq<P.Action>, p: P.Pool) {
    if actions == [] then p == P.Init(threads)
    else
      var n := |actions| - 1;
      exists before :: PoolReaches(threads, jobs, u, actions[..n], before) && P.Enabled(before, actions[n], u)
        && Pushable(before, jobs, actions[n]) && p == P.Step(before, actions[n], u)
  }

  lemma {:induction false} PoolApart(threads: nat, jobs: Jobs, u: P.Usage, actions: seq<P.Action>, p: P.Pool)
    requires PoolReaches(threads, jobs, u, actions, p) && P.SafeUse(threads, u)
    ensures P.Inv(p, u) && Apart(p, jobs)
    decreases |actions|
  {
    hide P.Inv, P.Step, P.Enabled, Apart, Pushable;
    if actions == [] {
      P.InitInv(threads, u);
      assert Apart(p, jobs) by { NoJobs(threads, jobs); }
    } else {
      var n := |actions| - 1;
      var before :| PoolReaches(threads, jobs, u, actions[..n], before) && P.Enabled(before, actions[n], u)
        && Pushable(before, jobs, actions[n]) && p == P.Step(before, actions[n], u);
      PoolApart(threads, jobs, u, actions[..n], before);
      P.StepKeepsInv(before, actions[n], u);
      StepApart(before, jobs, actions[n], u);
    }
  }

  lemma NoJobs(threads: nat, jobs: Jobs)
    ensures Apart(P.Init(threads), jobs)
  {
  }

  lemma Then(jobs: Jobs, u: P.Usage, actions: seq<P.Action>, p: P.Pool, a: P.Action) returns (more: seq<P.Action>, q: P.Pool)
    requires PoolReaches(1, jobs, u, actions, p) && P.Enabled(p, a, u) && Pushable(p, jobs, a)
    ensures PoolReaches(1, jobs, u, more, q) && q == P.Step(p, a, u)
  {
    more, q := actions + [a], P.Step(p, a, u);
    assert more[..|actions|] == actions;
  }

  /** Jobs 0 and 1 are for different locations. */
  ghost predicate TwoPlaces(jobs: Jobs) {
    jobs(0).loc != jobs(1).loc && C.GoodPic(jobs(0).pic) && C.GoodPic(jobs(1).pic)
  }

  lemma OneWorkerReady(jobs: Jobs, u: P.Usage) returns (actions: seq<P.Action>, p: P.Pool)
    requires u.maxJobs >= 2 && TwoPlaces(jobs)
    ensures PoolReaches(1, jobs, u, actions, p) && p.main.Outside? && !p.shutdown && p.work == [0, 1] && p.workers == [P.Blocked]
    ensures p.working == 0
  {
    hide C.GoodPic;
    actions, p := [], P.Init(1);
    assert PoolReaches(1, jobs, u, actions, p);
    hide PoolReaches;
    actions, p := Then(jobs, u, actions, p, P.PushWork(0));
    assert p.work == [0];
    actions, p := Then(jobs, u, actions, p, P.PushWork(1));
    assert p.work == [0, 1];
    actions, p := Then(jobs, u, actions, p, P.WorkerStart(0));
  }

  /** run() has returned, and the worker is still in job 1. */
  lemma OneWorkerLeft(jobs: Jobs, u: P.Usage) returns (actions: seq<P.Action>, p: P.Pool)
    requires u.maxJobs >= 2 && u.spurious && TwoPlaces(jobs)
    ensures PoolReaches(1, jobs, u, actions, p) && p.main.Outside? && !p.shutdown && p.work == [] && p.workers == [P.Busy(1)]
  {
    hide PoolReaches;
    actions, p := OneWorkerReady(jobs, u);
    actions, p := Then(jobs, u, actions, p, P.Run);
    assert p.work == [1] && p.workers == [P.Blocked] && p.running && !p.useThreads && p.working == 1;
    actions, p := Then(jobs, u, actions, p, P.Spurious(0));
    actions, p := Then(jobs, u, actions, p, P.WorkerRun(0));
    assert p.work == [] && p.workers == [P.Busy(1)];
    actions, p := Then(jobs, u, actions, p, P.MainDone);
  }

  /** The next render of the same tile starts while the worker is still at it. */
  lemma OneWorkerClashes(jobs: Jobs, u: P.Usage) returns (actions: seq<P.Action>, p: P.Pool)
    requires u.maxJobs >= 2 && u.spurious && TwoPlaces(jobs)
    ensures PoolReaches(1, jobs, u, actions, p) && p.main == P.InJob(1) && p.workers == [P.Busy(1)] && !HandsApart(p, jobs)
  {
    hide PoolReaches, C.GoodPic;
    actions, p := OneWorkerLeft(jobs, u);
    actions, p := Then(jobs, u, actions, p, P.PushWork(1));
    actions, p := Then(jobs, u, actions, p, P.Run);
    assert p.workers[0].Busy? && p.main.InJob? && p.workers[0].job == p.main.job;
  }

  /** Threads are never in two jobs at the same location, exactly when the pool is used safely. */
  lemma HandsApartExactlyWhen(threads: nat, jobs: Jobs, u: P.Usage)
    requires TwoPlaces(jobs)
    ensures (forall actions, p :: PoolReaches(threads, jobs, u, actions, p) ==> HandsApart(p, jobs)) <==> P.SafeUse(threads, u)
  {
    hide PoolReaches, HandsApart, TwoPlaces, WorkApart;
    if P.SafeUse(threads, u) {
      forall actions, p | PoolReaches(threads, jobs, u, actions, p) ensures HandsApart(p, jobs) {
        PoolApart(threads, jobs, u, actions, p);
      }
    } else {
      var actions, p := OneWorkerClashes(jobs, u);
    }
  }
}
