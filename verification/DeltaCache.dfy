/**
 * The delta cache with any number of render threads (kit/Delta.hpp), as atomic steps.
 *
 * A task is one compressOrDelta call. Tasks are keyed by tile location: the tiles of a render are
 * free of duplicates and a render ends before the next one starts. Cache entries are shared
 * objects, so one that is evicted while a task works on it lives on until that task lets go of it.
 */
module DeltaCache {
  import opened Wrappers
  import opened Pixels
  import opened DeltaClient
  import opened DeltaTile
  import opened DeltaStream

  datatype Pic = Pic(width: nat, height: nat, tile: Tile)

  ghost predicate GoodPic(p: Pic) {
    0 < p.width <= 256 && 0 < p.height <= 256 && Sized(p.tile, p.width, p.height)
  }

  datatype Job = Job(loc: TileLocation, wid: nat, pic: Pic, forceKeyframe: bool)

  /** A cached tile; `inUse` is the source's own thread check. */
  datatype Entry = Entry(loc: TileLocation, wid: nat, pic: Pic, inUse: bool)

  datatype Task =
    | Looking(job: Job)
    | Using(job: Job, id: nat)
    | Encoded(job: Job, id: nat, delta: Option<seq<Byte>>)
    | Replaced(job: Job, id: nat, delta: Option<seq<Byte>>)
    | Sending(job: Job)

  /**
   * `objs` are all entries ever made, `cache` the ones in the cache. `log` and `last` are the
   * messages sent for a location and the picture of the last one. `failed` records a failed assertion.
   */
  datatype State = State(
    objs: seq<Entry>, cache: map<TileLocation, nat>, tasks: map<TileLocation, Task>,
    log: map<TileLocation, seq<Message>>, last: map<TileLocation, Pic>, failed: bool)

  datatype Action =
    | Start(job: Job)
    | Lookup(loc: TileLocation)
    | Encode(loc: TileLocation, delta: Option<seq<Byte>>)
    | Replace(loc: TileLocation)
    | Unuse(loc: TileLocation)
    | Send(loc: TileLocation)
    | Evict(locs: set<TileLocation>)

  const INIT := State([], map[], map[], map[], map[], false)

  function Log(s: State, loc: TileLocation): seq<Message> {
    if loc in s.log then s.log[loc] else []
  }

  /** Which steps may happen. Encode may yield any payload that meets makeDelta's contract. */
  ghost predicate Enabled(s: State, a: Action, mode: TileMode) {
    match a
    case Start(job) => job.loc !in s.tasks && GoodPic(job.pic)
    case Evict(_) => true
    case Lookup(loc) => loc in s.tasks && s.tasks[loc].Looking? && (loc in s.cache ==> s.cache[loc] < |s.objs|)
    case Encode(loc, delta) =>
      && loc in s.tasks && s.tasks[loc].Using? && s.tasks[loc].id < |s.objs|
      && (var prev, cur := s.objs[s.tasks[loc].id].pic, s.tasks[loc].job.pic;
          if s.tasks[loc].job.forceKeyframe || prev.width != cur.width || prev.height != cur.height then delta.None?
          else delta.Some? && IsDelta(delta.value, WireTile(prev.tile, mode), WireTile(cur.tile, mode), cur.width, cur.height))
    case Replace(loc) => loc in s.tasks && s.tasks[loc].Encoded? && s.tasks[loc].id < |s.objs|
    case Unuse(loc) => loc in s.tasks && s.tasks[loc].Replaced? && s.tasks[loc].id < |s.objs|
    case Send(loc) => loc in s.tasks && s.tasks[loc].Sending?
  }

  ghost function LookupStep(s: State, loc: TileLocation): State
    requires loc in s.tasks && s.tasks[loc].Looking? && (loc in s.cache ==> s.cache[loc] < |s.objs|)
  {
    var job := s.tasks[loc].job;
    if job.pic.width % 2 != 0 then
      s.(tasks := s.tasks[loc := Sending(job)])
    else if loc !in s.cache then
      s.(objs := s.objs + [Entry(loc, job.wid, job.pic, false)],
         cache := s.cache[loc := |s.objs|],
         tasks := s.tasks[loc := Sending(job)])
    else
      var id := s.cache[loc];
      s.(objs := s.objs[id := s.objs[id].(inUse := true)],
         tasks := s.tasks[loc := Using(job, id)],
         failed := s.failed || s.objs[id].inUse)
  }

  /** A message goes out and its task is done. */
  ghost function Finish(s: State, loc: TileLocation, m: Message): State
    requires loc in s.tasks
  {
    s.(tasks := s.tasks - {loc}, log := s.log[loc := Log(s, loc) + [m]], last := s.last[loc := s.tasks[loc].job.pic])
  }

  ghost function UnuseStep(s: State, loc: TileLocation): State
    requires loc in s.tasks && s.tasks[loc].Replaced? && s.tasks[loc].id < |s.objs|
  {
    var task := s.tasks[loc];
    var s1 := s.(objs := s.objs[task.id := s.objs[task.id].(inUse := false)],
                 failed := s.failed || !s.objs[task.id].inUse);
    if task.delta.Some? then Finish(s1, loc, Delta(task.delta.value))
    else s1.(tasks := s1.tasks[loc := Sending(task.job)])
  }

  ghost function Step(s: State, a: Action, mode: TileMode): State
    requires Enabled(s, a, mode)
  {
    match a
    case Start(job) => s.(tasks := s.tasks[job.loc := Looking(job)])
    case Evict(locs) => s.(cache := s.cache - locs)
    case Lookup(loc) => LookupStep(s, loc)
    case Encode(loc, delta) => s.(tasks := s.tasks[loc := Encoded(s.tasks[loc].job, s.tasks[loc].id, delta)])
    case Replace(loc) =>
      var task := s.tasks[loc];
      var was := s.objs[task.id];
      s.(objs := s.objs[task.id := was.(wid := task.job.wid, pic := task.job.pic)],
         tasks := s.tasks[loc := Replaced(task.job, task.id, task.delta)],
         failed := s.failed || was.loc != task.job.loc)
    case Unuse(loc) => UnuseStep(s, loc)
    case Send(loc) =>
      var pic := s.tasks[loc].job.pic;
      Finish(s, loc, Keyframe(pic.width, pic.height, FlatBytes(WireTile(pic.tile, mode))))
  }

  ghost predicate CarriesPic(msgs: seq<Message>, p: Pic, mode: TileMode) {
    Carries(msgs, WireTile(p.tile, mode), p.width, p.height)
  }

  predicate EvenBase(msgs: seq<Message>) {
    KeptData(msgs).Keyframe? && KeptData(msgs).width % 2 == 0
  }

  /** No delta has been sent on top of a keyframe of odd width. */
  predicate Synced(msgs: seq<Message>) {
    msgs != [] && (EvenBase(msgs) || msgs[|msgs| - 1].Keyframe?)
  }

  /** If the client works from an even keyframe, it shows p. */
  ghost predicate InStep(msgs: seq<Message>, p: Pic, mode: TileMode) {
    msgs != [] && GoodPic(p) && (EvenBase(msgs) ==> CarriesPic(msgs, p, mode))
  }

  ghost predicate Owns(s: State, loc: TileLocation, id: nat) {
    id < |s.objs| && s.objs[id].loc == loc && s.objs[id].inUse && (loc in s.cache ==> s.cache[loc] == id)
  }

  /** A task holds the cached picture, and any delta it has made fits the messages sent so far. */
  ghost predicate TaskInv(s: State, loc: TileLocation, mode: TileMode)
    requires loc in s.tasks
  {
    var task, msgs := s.tasks[loc], Log(s, loc);
    && task.job.loc == loc && GoodPic(task.job.pic)
    && match task
       case Looking(job) => CachedInv(s, loc, mode)
       case Using(job, id) => job.pic.width % 2 == 0 && Owns(s, loc, id) && InStep(msgs, s.objs[id].pic, mode)
       case Encoded(job, id, d) =>
         job.pic.width % 2 == 0 && Owns(s, loc, id) && msgs != [] && (d.Some? ==> InStep(msgs + [Delta(d.value)], job.pic, mode))
       case Replaced(job, id, d) =>
         && job.pic.width % 2 == 0 && Owns(s, loc, id) && msgs != [] && (d.Some? ==> InStep(msgs + [Delta(d.value)], job.pic, mode))
         && s.objs[id].pic == job.pic
       case Sending(job) =>
         loc in s.cache && s.cache[loc] < |s.objs| ==>
           !s.objs[s.cache[loc]].inUse && (job.pic.width % 2 == 0 ==> s.objs[s.cache[loc]].pic == job.pic)
           && GoodPic(s.objs[s.cache[loc]].pic)
  }

  /** A cached entry nobody works on agrees with what has been sent. */
  ghost predicate CachedInv(s: State, loc: TileLocation, mode: TileMode) {
    loc in s.cache && s.cache[loc] < |s.objs| ==>
      !s.objs[s.cache[loc]].inUse && InStep(Log(s, loc), s.objs[s.cache[loc]].pic, mode)
  }

  ghost predicate SentInv(s: State, loc: TileLocation, mode: TileMode) {
    var msgs := Log(s, loc);
    msgs != [] ==>
      && loc in s.last && GoodPic(s.last[loc]) && KeptData(msgs).Keyframe?
      && (Synced(msgs) ==> CarriesPic(msgs, s.last[loc], mode))
      && (msgs[|msgs| - 1].Delta? ==> s.last[loc].width % 2 == 0)
  }

  ghost predicate LocInv(s: State, loc: TileLocation, mode: TileMode) {
    && (loc in s.cache ==> s.cache[loc] < |s.objs| && s.objs[s.cache[loc]].loc == loc)
    && (if loc in s.tasks then TaskInv(s, loc, mode) else CachedInv(s, loc, mode))
    && SentInv(s, loc, mode)
  }

  ghost predicate Inv(s: State, mode: TileMode) {
    !s.failed && forall loc :: LocInv(s, loc, mode)
  }

  /** Nothing that the invariant of a location looks at changes, except that its entry may leave the cache. */
  ghost predicate Untouched(s: State, s': State, loc: TileLocation) {
    && (loc in s'.cache ==> loc in s.cache && s'.cache[loc] == s.cache[loc])
    && (loc in s.tasks <==> loc in s'.tasks) && (loc in s.tasks ==> s'.tasks[loc] == s.tasks[loc])
    && Log(s', loc) == Log(s, loc) && (loc in s.last ==> loc in s'.last && s'.last[loc] == s.last[loc])
    && |s.objs| <= |s'.objs|
    && forall id :: 0 <= id < |s.objs| && s.objs[id].loc == loc ==> s'.objs[id] == s.objs[id]
  }

  lemma UntouchedInv(s: State, s': State, loc: TileLocation, mode: TileMode)
    requires LocInv(s, loc, mode) && Untouched(s, s', loc)
    ensures LocInv(s', loc, mode)
  {
    hide InStep, CarriesPic, EvenBase, GoodPic, KeptData, Synced;
  }

  function Target(a: Action): TileLocation
    requires !a.Evict?
  {
    if a.Start? then a.job.loc else a.loc
  }

  lemma OthersUntouched(s: State, a: Action, mode: TileMode, loc: TileLocation)
    requires Enabled(s, a, mode) && !a.Evict? && LocInv(s, Target(a), mode) && loc != Target(a)
    ensures Untouched(s, Step(s, a, mode), loc)
  {
    OwnEntries(s, Target(a), mode);
    hide LocInv, GoodPic, IsDelta, FlatBytes, WireTile, LookupStep, UnuseStep, Untouched;
    match a {
      case Lookup(own) => LookupTouches(s, own, loc);
      case Unuse(own) => UnuseTouches(s, own, loc);
      case _ => RestTouches(s, a, mode, loc);
    }
  }

  lemma LookupTouches(s: State, own: TileLocation, loc: TileLocation)
    requires loc != own && own in s.tasks && s.tasks[own].Looking?
    requires own in s.cache ==> s.cache[own] < |s.objs| && s.objs[s.cache[own]].loc == own
    ensures Untouched(s, LookupStep(s, own), loc)
  {
  }

  lemma UnuseTouches(s: State, own: TileLocation, loc: TileLocation)
    requires loc != own && own in s.tasks && s.tasks[own].Replaced? && s.tasks[own].id < |s.objs| && s.objs[s.tasks[own].id].loc == own
    ensures Untouched(s, UnuseStep(s, own), loc)
  {
  }

  lemma RestTouches(s: State, a: Action, mode: TileMode, loc: TileLocation)
    requires Enabled(s, a, mode) && (a.Start? || a.Encode? || a.Replace? || a.Send?) && loc != Target(a)
    requires a.Replace? ==> s.objs[s.tasks[a.loc].id].loc == a.loc
    ensures Untouched(s, Step(s, a, mode), loc)
  {
    hide GoodPic, IsDelta, FlatBytes, WireTile, LookupStep, UnuseStep;
  }

  /** The entries a location works with are its own. */
  lemma OwnEntries(s: State, loc: TileLocation, mode: TileMode)
    requires LocInv(s, loc, mode)
    ensures loc in s.cache ==> s.cache[loc] < |s.objs| && s.objs[s.cache[loc]].loc == loc
    ensures loc in s.tasks && (s.tasks[loc].Encoded? || s.tasks[loc].Replaced?) && s.tasks[loc].id < |s.objs| ==>
              s.objs[s.tasks[loc].id].loc == loc
  {
    hide InStep, GoodPic, SentInv, CachedInv;
  }

  lemma LookupKeeps(s: State, loc: TileLocation, mode: TileMode)
    requires Enabled(s, Lookup(loc), mode) && LocInv(s, loc, mode) && !s.failed
    ensures !LookupStep(s, loc).failed && LocInv(LookupStep(s, loc), loc, mode)
  {
    hide InStep, CarriesPic, EvenBase, GoodPic, KeptData, Synced;
    if loc in s.cache {
      InStepGood(Log(s, loc), s.objs[s.cache[loc]].pic, mode);
    }
  }

  lemma InStepGood(msgs: seq<Message>, p: Pic, mode: TileMode)
    requires InStep(msgs, p, mode)
    ensures msgs != [] && GoodPic(p)
  {
  }

  lemma DeltaSent(msgs: seq<Message>, bytes: seq<Byte>)
    requires msgs != []
    ensures KeptData(msgs + [Delta(bytes)]).Keyframe? <==> KeptData(msgs).Keyframe?
    ensures EvenBase(msgs + [Delta(bytes)]) <==> EvenBase(msgs)
  {
    assert (msgs + [Delta(bytes)])[..|msgs|] == msgs;
  }

  /** A delta from the picture the client is in step with puts it in step with the next one. */
  lemma DeltaInStep(msgs: seq<Message>, prev: Pic, cur: Pic, bytes: seq<Byte>, mode: TileMode)
    requires InStep(msgs, prev, mode) && GoodPic(cur) && prev.width == cur.width && prev.height == cur.height
    requires IsDelta(bytes, WireTile(prev.tile, mode), WireTile(cur.tile, mode), cur.width, cur.height)
    ensures InStep(msgs + [Delta(bytes)], cur, mode)
  {
    hide IsDelta;
    DeltaSent(msgs, bytes);
    var after := msgs + [Delta(bytes)];
    assert after[..|after| - 1] == msgs;
    WireTileSized(cur.tile, mode, cur.width, cur.height);
  }

  lemma KeyframeInStep(msgs: seq<Message>, p: Pic, mode: TileMode)
    requires GoodPic(p)
    ensures var m := Keyframe(p.width, p.height, FlatBytes(WireTile(p.tile, mode)));
      KeptData(msgs + [m]) == m && CarriesPic(msgs + [m], p, mode)
  {
    hide FlatBytes;
    WireTileSized(p.tile, mode, p.width, p.height);
  }

  lemma EncodeKeeps(s: State, a: Action, mode: TileMode)
    requires a.Encode? && Enabled(s, a, mode) && LocInv(s, a.loc, mode)
    ensures LocInv(Step(s, a, mode), a.loc, mode)
  {
    hide InStep, CarriesPic, EvenBase, GoodPic, KeptData, Synced, IsDelta, SentInv;
    var task := s.tasks[a.loc];
    InStepGood(Log(s, a.loc), s.objs[task.id].pic, mode);
    if a.delta.Some? {
      DeltaInStep(Log(s, a.loc), s.objs[task.id].pic, task.job.pic, a.delta.value, mode);
    }
    assert SentInv(s, a.loc, mode) ==> SentInv(Step(s, a, mode), a.loc, mode) by {
      SentSame(s, Step(s, a, mode), a.loc, mode);
    }
  }

  lemma SentSame(s: State, s': State, loc: TileLocation, mode: TileMode)
    requires Log(s, loc) == Log(s', loc) && s.last == s'.last
    ensures SentInv(s, loc, mode) ==> SentInv(s', loc, mode)
  {
    hide CarriesPic, EvenBase, GoodPic, KeptData, Synced;
  }

  lemma ReplaceKeeps(s: State, a: Action, mode: TileMode)
    requires a.Replace? && Enabled(s, a, mode) && LocInv(s, a.loc, mode) && !s.failed
    ensures !Step(s, a, mode).failed && LocInv(Step(s, a, mode), a.loc, mode)
  {
    hide InStep, CarriesPic, EvenBase, GoodPic, KeptData, Synced, SentInv;
    SentSame(s, Step(s, a, mode), a.loc, mode);
  }

  lemma FinishDelta(s: State, loc: TileLocation, mode: TileMode)
    requires LocInv(s, loc, mode) && loc in s.tasks && s.tasks[loc].Replaced? && s.tasks[loc].delta.Some?
    ensures UnuseStep(s, loc).failed == s.failed && LocInv(UnuseStep(s, loc), loc, mode)
  {
    hide CarriesPic, EvenBase, GoodPic, KeptData;
    DeltaSent(Log(s, loc), s.tasks[loc].delta.value);
  }

  lemma UnuseKeeps(s: State, loc: TileLocation, mode: TileMode)
    requires LocInv(s, loc, mode) && loc in s.tasks && s.tasks[loc].Replaced? && s.tasks[loc].delta.None?
    ensures UnuseStep(s, loc).failed == s.failed && LocInv(UnuseStep(s, loc), loc, mode)
  {
    hide InStep, CarriesPic, EvenBase, GoodPic, KeptData, Synced, SentInv;
    SentSame(s, UnuseStep(s, loc), loc, mode);
  }

  lemma SendKeeps(s: State, a: Action, mode: TileMode)
    requires a.Send? && Enabled(s, a, mode) && LocInv(s, a.loc, mode)
    ensures LocInv(Step(s, a, mode), a.loc, mode)
  {
    hide CarriesPic, GoodPic, KeptData, FlatBytes;
    KeyframeInStep(Log(s, a.loc), s.tasks[a.loc].job.pic, mode);
  }

  lemma StartKeeps(s: State, a: Action, mode: TileMode)
    requires a.Start? && Enabled(s, a, mode) && LocInv(s, a.job.loc, mode)
    ensures LocInv(Step(s, a, mode), a.job.loc, mode)
  {
    hide InStep, CarriesPic, EvenBase, GoodPic, KeptData, Synced, SentInv;
    SentSame(s, Step(s, a, mode), a.job.loc, mode);
  }

  lemma TargetKeeps(s: State, a: Action, mode: TileMode)
    requires Enabled(s, a, mode) && !a.Evict? && LocInv(s, Target(a), mode) && !s.failed
    ensures !Step(s, a, mode).failed && LocInv(Step(s, a, mode), Target(a), mode)
  {
    hide LocInv;
    match a {
      case Start(_) => StartKeeps(s, a, mode);
      case Lookup(loc) => LookupKeeps(s, loc, mode);
      case Encode(_, _) => EncodeKeeps(s, a, mode);
      case Replace(_) => ReplaceKeeps(s, a, mode);
      case Unuse(loc) =>
        if s.tasks[loc].delta.Some? {
          FinishDelta(s, loc, mode);
        } else {
          UnuseKeeps(s, loc, mode);
        }
      case Send(_) => SendKeeps(s, a, mode);
    }
  }

  /** Every step keeps the invariant and fails no assertion. */
  lemma StepKeepsInv(s: State, a: Action, mode: TileMode)
    requires Inv(s, mode) && Enabled(s, a, mode)
    ensures Inv(Step(s, a, mode), mode)
  {
    hide LocInv;
    var s' := Step(s, a, mode);
    if !a.Evict? {
      TargetKeeps(s, a, mode);
    }
    forall loc ensures LocInv(s', loc, mode) {
      if a.Evict? {
        UntouchedInv(s, s', loc, mode);
      } else if loc != Target(a) {
        OthersUntouched(s, a, mode, loc);
        UntouchedInv(s, s', loc, mode);
      }
    }
  }

  /** A run from one state to another: every action is enabled where it happens. */
  ghost predicate Goes(from: State, actions: seq<Action>, s: State, mode: TileMode) {
    if actions == [] then s == from
    else
      var n := |actions| - 1;
      exists before :: Goes(from, actions[..n], before, mode) && Enabled(before, actions[n], mode)
        && s == Step(before, actions[n], mode)
  }

  ghost predicate Reaches(actions: seq<Action>, s: State, mode: TileMode) { Goes(INIT, actions, s, mode) }

  lemma {:induction false} GoesKeepsInv(from: State, actions: seq<Action>, s: State, mode: TileMode)
    requires Inv(from, mode) && Goes(from, actions, s, mode)
    ensures Inv(s, mode)
    decreases |actions|
  {
    if actions != [] {
      hide Step, Enabled, Inv;
      var n := |actions| - 1;
      var before :| Goes(from, actions[..n], before, mode) && Enabled(before, actions[n], mode)
        && s == Step(before, actions[n], mode);
      GoesKeepsInv(from, actions[..n], before, mode);
      StepKeepsInv(before, actions[n], mode);
    }
  }

  lemma RunKeepsInv(actions: seq<Action>, s: State, mode: TileMode)
    requires Reaches(actions, s, mode)
    ensures Inv(s, mode)
  {
    GoesKeepsInv(INIT, actions, s, mode);
  }

  /**
   * In every reachable state, at every location something was sent for: no assertion has failed,
   * and the client shows exactly the picture of the last message if and only if no delta has
   * been sent on top of a keyframe of odd width. It then also draws that picture again from the
   * data it kept.
   */
  lemma ClientShowsLastPicture(actions: seq<Action>, s: State, mode: TileMode, loc: TileLocation, show: Pixel -> Pixel)
    requires Reaches(actions, s, mode) && Log(s, loc) != []
    ensures !s.failed && loc in s.last
    ensures ReceiveAll(show, Log(s, loc)) == Some(MapTile(show, WireTile(s.last[loc].tile, mode))) <==> Synced(Log(s, loc))
    ensures Synced(Log(s, loc)) ==>
      Receive(show, None, KeptData(Log(s, loc))) == Some(MapTile(show, WireTile(s.last[loc].tile, mode)))
  {
    RunKeepsInv(actions, s, mode);
    ShowsWhenSynced(s, mode, loc, show);
  }

  lemma ShowsWhenSynced(s: State, mode: TileMode, loc: TileLocation, show: Pixel -> Pixel)
    requires Inv(s, mode) && Log(s, loc) != []
    ensures loc in s.last
    ensures ReceiveAll(show, Log(s, loc)) == Some(MapTile(show, WireTile(s.last[loc].tile, mode))) <==> Synced(Log(s, loc))
    ensures Synced(Log(s, loc)) ==>
      Receive(show, None, KeptData(Log(s, loc))) == Some(MapTile(show, WireTile(s.last[loc].tile, mode)))
  {
    hide ReceiveAll, Receive, MapTile;
    assert LocInv(s, loc, mode);
    var msgs, pic := Log(s, loc), s.last[loc];
    var wire := WireTile(pic.tile, mode);
    if Synced(msgs) {
      Shows(show, msgs, wire, pic.width, pic.height);
      ShowsAgain(show, msgs, wire, pic.width, pic.height, []);
      assert KeptData(msgs).bytes + [] == KeptData(msgs).bytes;
      assert ApplyDeltas(show, [], MapTile(show, wire)) == Some(MapTile(show, wire));
    } else if ReceiveAll(show, msgs).Some? {
      CanvasSize(show, msgs);
      OddNotEven(ReceiveAll(show, msgs).value, KeptData(msgs).width, KeptData(msgs).height, show, pic, mode);
    }
  }

  lemma OddNotEven(canvas: Tile, width: nat, height: nat, show: Pixel -> Pixel, p: Pic, mode: TileMode)
    requires Sized(canvas, width, height) && width % 2 == 1 && GoodPic(p) && p.width % 2 == 0
    ensures canvas != MapTile(show, WireTile(p.tile, mode))
  {
    var shown := MapTile(show, WireTile(p.tile, mode));
    assert |shown| == p.height && |shown[0]| == p.width;
    if height > 0 {
      assert |canvas[0]| == width;
    }
  }

  /** If no location is ever rendered at an odd width, the client always shows the last picture. */
  lemma EvenRunsStaySynced(actions: seq<Action>, s: State, mode: TileMode, loc: TileLocation)
    requires Reaches(actions, s, mode)
    requires forall i :: 0 <= i < |actions| && actions[i].Start? ==> actions[i].job.pic.width % 2 == 0
    ensures Log(s, loc) != [] ==> Synced(Log(s, loc))
  {
    EvenRunInv(actions, s, mode);
    assert EvenLoc(s, loc);
  }

  ghost predicate EvenLoc(s: State, loc: TileLocation) {
    && (loc in s.tasks ==> s.tasks[loc].job.pic.width % 2 == 0)
    && (Log(s, loc) != [] ==> EvenBase(Log(s, loc)))
  }

  lemma {:induction false} EvenRunInv(actions: seq<Action>, s: State, mode: TileMode)
    requires Reaches(actions, s, mode)
    requires forall i :: 0 <= i < |actions| && actions[i].Start? ==> actions[i].job.pic.width % 2 == 0
    ensures forall loc :: EvenLoc(s, loc)
    decreases |actions|
  {
    if actions != [] {
      var n := |actions| - 1;
      var before :| Reaches(actions[..n], before, mode) && Enabled(before, actions[n], mode)
        && s == Step(before, actions[n], mode);
      EvenRunInv(actions[..n], before, mode);
      RunKeepsInv(actions[..n], before, mode);
      forall loc ensures EvenLoc(s, loc) {
        assert EvenLoc(before, loc) && LocInv(before, loc, mode);
        EvenStep(before, actions[n], mode, loc);
      }
    }
  }

  lemma EvenStep(s: State, a: Action, mode: TileMode, loc: TileLocation)
    requires Enabled(s, a, mode) && EvenLoc(s, loc) && (a.Start? ==> a.job.pic.width % 2 == 0)
    requires LocInv(s, loc, mode)
    ensures EvenLoc(Step(s, a, mode), loc)
  {
    assert a.Unuse? && a.loc == loc ==> Log(s, loc) != [] by {
      hide InStep, GoodPic, SentInv, CachedInv, IsDelta;
    }
    hide LocInv, GoodPic, IsDelta, FlatBytes, WireTile, LookupStep, UnuseStep, EvenLoc, KeptData;
    match a {
      case Lookup(own) => EvenLookup(s, own, loc);
      case Unuse(own) => EvenUnuse(s, own, loc);
      case Send(own) => EvenSend(s, own, mode, loc);
      case _ => EvenRest(s, a, mode, loc);
    }
  }

  lemma EvenLookup(s: State, own: TileLocation, loc: TileLocation)
    requires own in s.tasks && s.tasks[own].Looking? && (own in s.cache ==> s.cache[own] < |s.objs|) && EvenLoc(s, loc)
    ensures EvenLoc(LookupStep(s, own), loc)
  {
    hide KeptData;
  }

  lemma EvenUnuse(s: State, own: TileLocation, loc: TileLocation)
    requires own in s.tasks && s.tasks[own].Replaced? && s.tasks[own].id < |s.objs| && EvenLoc(s, loc)
    requires own == loc ==> Log(s, loc) != []
    ensures EvenLoc(UnuseStep(s, own), loc)
  {
    hide EvenBase;
    if s.tasks[own].delta.Some? && own == loc {
      DeltaSent(Log(s, loc), s.tasks[own].delta.value);
    }
  }

  lemma EvenSend(s: State, own: TileLocation, mode: TileMode, loc: TileLocation)
    requires Enabled(s, Send(own), mode) && EvenLoc(s, loc)
    ensures EvenLoc(Step(s, Send(own), mode), loc)
  {
    hide GoodPic, IsDelta, FlatBytes, WireTile;
    if own == loc {
      var after := Log(Step(s, Send(own), mode), loc);
      assert KeptData(after) == after[|after| - 1];
    }
  }

  lemma EvenRest(s: State, a: Action, mode: TileMode, loc: TileLocation)
    requires Enabled(s, a, mode) && EvenLoc(s, loc) && (a.Start? ==> a.job.pic.width % 2 == 0)
    requires a.Start? || a.Encode? || a.Replace? || a.Evict?
    ensures EvenLoc(Step(s, a, mode), loc)
  {
    hide GoodPic, IsDelta, FlatBytes, WireTile, EvenBase;
  }

  /** A render that sends a keyframe without a cached entry to work from, start to end. */
  lemma RenderKeyframe(actions: seq<Action>, s: State, job: Job, mode: TileMode) returns (more: seq<Action>, s': State)
    requires Reaches(actions, s, mode) && s.tasks == map[] && GoodPic(job.pic) && !s.failed
    requires job.loc in s.cache ==> job.pic.width % 2 == 1 && s.cache[job.loc] < |s.objs|
    ensures Reaches(more, s', mode) && s'.tasks == map[] && !s'.failed
    ensures Log(s', job.loc) == Log(s, job.loc) + [Keyframe(job.pic.width, job.pic.height, FlatBytes(WireTile(job.pic.tile, mode)))]
    ensures if job.pic.width % 2 == 1 then s'.cache == s.cache && s'.objs == s.objs
            else s'.cache == s.cache[job.loc := |s.objs|] && s'.objs == s.objs + [Entry(job.loc, job.wid, job.pic, false)]
  {
    hide FlatBytes, Goes;
    more, s' := Then(INIT, actions, s, Start(job), mode);
    more, s' := Then(INIT, more, s', Lookup(job.loc), mode);
    more, s' := Then(INIT, more, s', Send(job.loc), mode);
  }

  /** A render of the picture that is cached already, start to end: an empty delta. */
  lemma RenderSame(actions: seq<Action>, s: State, job: Job, mode: TileMode) returns (more: seq<Action>, s': State)
    requires Reaches(actions, s, mode) && s.tasks == map[] && GoodPic(job.pic) && !s.failed
    requires job.pic.width % 2 == 0 && !job.forceKeyframe
    requires job.loc in s.cache && s.cache[job.loc] < |s.objs| && s.objs[s.cache[job.loc]].pic == job.pic
    ensures Reaches(more, s', mode) && Log(s', job.loc) == Log(s, job.loc) + [Delta([])] && s'.cache == s.cache
    ensures s'.objs == s.objs[s.cache[job.loc] := s.objs[s.cache[job.loc]].(wid := job.wid, inUse := false)]
  {
    hide Goes;
    var wire := WireTile(job.pic.tile, mode);
    WireTileSized(job.pic.tile, mode, job.pic.width, job.pic.height);
    assert DeltaOf([], [], wire, wire, job.pic.width, job.pic.height);
    more, s' := Then(INIT, actions, s, Start(job), mode);
    more, s' := Then(INIT, more, s', Lookup(job.loc), mode);
    more, s' := Then(INIT, more, s', Encode(job.loc, Some([])), mode);
    more, s' := Then(INIT, more, s', Replace(job.loc), mode);
    more, s' := Then(INIT, more, s', Unuse(job.loc), mode);
  }

  /** The other case happens: an odd keyframe between two equal even pictures leaves the client on the odd one. */
  lemma OddKeyframeBreaks(mode: TileMode, loc: TileLocation) returns (actions: seq<Action>, s: State)
    ensures Reaches(actions, s, mode) && Log(s, loc) != [] && !Synced(Log(s, loc))
  {
    var even := Job(loc, 1, Pic(2, 1, [[TRANSPARENT, TRANSPARENT]]), false);
    var odd := Job(loc, 2, Pic(1, 1, [[TRANSPARENT]]), false);
    actions, s := [], INIT;
    assert Reaches(actions, s, mode);
    hide FlatBytes, Goes;
    actions, s := RenderKeyframe(actions, s, even, mode);
    actions, s := RenderKeyframe(actions, s, odd, mode);
    var before := Log(s, loc);
    assert KeptData(before).width == 1;
    actions, s := RenderSame(actions, s, even, mode);
    DeltaSent(before, []);
  }

  lemma Then(from: State, actions: seq<Action>, s: State, a: Action, mode: TileMode) returns (more: seq<Action>, s': State)
    requires Goes(from, actions, s, mode) && Enabled(s, a, mode)
    ensures Goes(from, more, s', mode) && s' == Step(s, a, mode) && more == actions + [a]
  {
    more, s' := actions + [a], Step(s, a, mode);
    assert more[..|actions|] == actions;
  }
}
