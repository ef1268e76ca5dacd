/** What one render leaves the client with, told from the cache and the messages before it. */
module DeltaRender {
  import opened Wrappers
  import opened Pixels
  import opened DeltaClient
  import opened DeltaEncoder
  import opened DeltaTile
  import opened DeltaStream
  import opened DeltaCache

  /** A render that finds the cache like this sends a delta. */
  ghost predicate SendsDelta(s: State, job: Job) {
    && job.pic.width % 2 == 0 && !job.forceKeyframe
    && job.loc in s.cache && s.cache[job.loc] < |s.objs|
    && s.objs[s.cache[job.loc]].pic.width == job.pic.width && s.objs[s.cache[job.loc]].pic.height == job.pic.height
  }

  /** A delta is due, but the client works from a keyframe of odd width, of which the cache knows nothing. */
  ghost predicate Stale(s: State, job: Job) {
    SendsDelta(s, job) && KeptData(Log(s, job.loc)).Keyframe? && KeptData(Log(s, job.loc)).width % 2 == 1
  }

  /** The client shows the picture after the messages of its location. */
  ghost predicate ClientShows(s: State, loc: TileLocation, pic: Pic, show: Pixel -> Pixel, mode: TileMode) {
    ReceiveAll(show, Log(s, loc)) == Some(MapTile(show, WireTile(pic.tile, mode)))
  }

  // ---- from the lookup to the message -----------------------------------

  /** The job has looked at the cache and will send a delta or a keyframe on top of `msgs`. */
  ghost predicate OnTheWay(s: State, job: Job, msgs: seq<Message>, delta: bool) {
    && job.loc in s.tasks && s.tasks[job.loc].job == job && Log(s, job.loc) == msgs
    && match s.tasks[job.loc]
       case Looking(_) => false
       case Using(_, id) =>
         && id < |s.objs| && s.objs[id].loc == job.loc
         && (delta <==> !job.forceKeyframe && s.objs[id].pic.width == job.pic.width && s.objs[id].pic.height == job.pic.height)
       case Encoded(_, _, d) => d.Some? <==> delta
       case Replaced(_, _, d) => d.Some? <==> delta
       case Sending(_) => !delta
  }

  /** It has sent it. */
  ghost predicate Sent(s: State, job: Job, msgs: seq<Message>, delta: bool) {
    && job.loc !in s.tasks && job.loc in s.last && s.last[job.loc] == job.pic
    && |Log(s, job.loc)| == |msgs| + 1 && Log(s, job.loc)[..|msgs|] == msgs
    && (Log(s, job.loc)[|msgs|].Delta? <==> delta)
  }

  lemma LookupDecides(s: State, job: Job, mode: TileMode)
    requires Inv(s, mode) && job.loc in s.tasks && s.tasks[job.loc] == Looking(job)
    ensures Enabled(s, Lookup(job.loc), mode)
    ensures OnTheWay(Step(s, Lookup(job.loc), mode), job, Log(s, job.loc), SendsDelta(s, job))
  {
    hide LocInv;
    OwnEntries(s, job.loc, mode);
  }

  lemma OwnStep(s: State, job: Job, msgs: seq<Message>, delta: bool, a: Action, mode: TileMode)
    requires OnTheWay(s, job, msgs, delta) && Enabled(s, a, mode) && !a.Evict? && Target(a) == job.loc
    ensures var s' := Step(s, a, mode); OnTheWay(s', job, msgs, delta) || Sent(s', job, msgs, delta)
  {
    hide GoodPic, IsDelta, FlatBytes, WireTile;
  }

  lemma OthersStep(s: State, s': State, job: Job, msgs: seq<Message>, delta: bool)
    requires Untouched(s, s', job.loc)
    ensures OnTheWay(s, job, msgs, delta) ==> OnTheWay(s', job, msgs, delta)
    ensures Sent(s, job, msgs, delta) ==> Sent(s', job, msgs, delta)
  {
  }

  lemma EvictTouches(s: State, locs: set<TileLocation>, mode: TileMode, loc: TileLocation)
    ensures Untouched(s, Step(s, Evict(locs), mode), loc)
  {
  }

  ghost predicate NoOtherRender(actions: seq<Action>, loc: TileLocation) {
    forall i :: 0 <= i < |actions| && actions[i].Start? ==> actions[i].job.loc != loc
  }

  lemma SentStep(s: State, job: Job, msgs: seq<Message>, delta: bool, a: Action, mode: TileMode)
    requires Sent(s, job, msgs, delta) && Enabled(s, a, mode) && !a.Evict? && !a.Start?
    ensures Target(a) != job.loc
  {
    hide GoodPic, IsDelta;
  }

  lemma {:induction false} SendsInTheEnd(from: State, job: Job, msgs: seq<Message>, delta: bool, actions: seq<Action>, s: State, mode: TileMode)
    requires Inv(from, mode) && OnTheWay(from, job, msgs, delta) && Goes(from, actions, s, mode) && NoOtherRender(actions, job.loc)
    ensures OnTheWay(s, job, msgs, delta) || Sent(s, job, msgs, delta)
    decreases |actions|
  {
    if actions != [] {
      hide Step, Enabled, Inv, OnTheWay, Sent, LocInv, Untouched;
      var n := |actions| - 1;
      var a := actions[n];
      var before :| Goes(from, actions[..n], before, mode) && Enabled(before, a, mode) && s == Step(before, a, mode);
      SendsInTheEnd(from, job, msgs, delta, actions[..n], before, mode);
      GoesKeepsInv(from, actions[..n], before, mode);
      OneStep(before, job, msgs, delta, a, mode);
    }
  }

  lemma OneStep(s: State, job: Job, msgs: seq<Message>, delta: bool, a: Action, mode: TileMode)
    requires Inv(s, mode) && Enabled(s, a, mode) && (a.Start? ==> a.job.loc != job.loc)
    requires OnTheWay(s, job, msgs, delta) || Sent(s, job, msgs, delta)
    ensures OnTheWay(Step(s, a, mode), job, msgs, delta) || Sent(Step(s, a, mode), job, msgs, delta)
  {
    hide Step, Enabled, OnTheWay, Sent, LocInv, Untouched;
    if a.Evict? {
      EvictTouches(s, a.locs, mode, job.loc);
      OthersStep(s, Step(s, a, mode), job, msgs, delta);
    } else if Target(a) != job.loc {
      assert LocInv(s, Target(a), mode);
      OthersUntouched(s, a, mode, job.loc);
      OthersStep(s, Step(s, a, mode), job, msgs, delta);
    } else if OnTheWay(s, job, msgs, delta) {
      OwnStep(s, job, msgs, delta, a, mode);
    } else {
      SentStep(s, job, msgs, delta, a, mode);
    }
  }

  /** A delta keeps the client in step exactly if it was not on an odd keyframe; a keyframe always does. */
  lemma SentSynced(s: State, job: Job, msgs: seq<Message>, delta: bool)
    requires Sent(s, job, msgs, delta) && (delta ==> msgs != [] && KeptData(msgs).Keyframe?)
    ensures Synced(Log(s, job.loc)) <==> !(delta && KeptData(msgs).width % 2 == 1)
  {
    var after := Log(s, job.loc);
    var m := after[|msgs|];
    assert after == msgs + [m];
    if delta {
      DeltaSent(msgs, m.bytes);
    }
  }

  /** Where a delta is due something has been sent, and the first of it was a keyframe. */
  lemma CachedMeansSent(s: State, job: Job, mode: TileMode)
    requires Inv(s, mode) && SendsDelta(s, job) && job.loc in s.tasks && s.tasks[job.loc].Looking?
    ensures Log(s, job.loc) != [] && KeptData(Log(s, job.loc)).Keyframe?
  {
    assert LocInv(s, job.loc, mode);
    hide CarriesPic, EvenBase, GoodPic, KeptData, Synced;
  }

  /** From the lookup on, whatever other threads do: the client shows the picture in the end exactly if the cache was not stale. */
  lemma RenderFromLookup(s: State, job: Job, rest: seq<Action>, s': State, show: Pixel -> Pixel, mode: TileMode)
    requires Inv(s, mode) && job.loc in s.tasks && s.tasks[job.loc] == Looking(job)
    requires Enabled(s, Lookup(job.loc), mode) && Goes(Step(s, Lookup(job.loc), mode), rest, s', mode)
    requires NoOtherRender(rest, job.loc) && job.loc !in s'.tasks
    ensures ClientShows(s', job.loc, job.pic, show, mode) <==> !Stale(s, job)
  {
    hide Step, Enabled, Inv, OnTheWay, Synced, SendsDelta, KeptData;
    var from, msgs, delta := Step(s, Lookup(job.loc), mode), Log(s, job.loc), SendsDelta(s, job);
    LookupDecides(s, job, mode);
    StepKeepsInv(s, Lookup(job.loc), mode);
    SendsInTheEnd(from, job, msgs, delta, rest, s', mode);
    WayNotDone(s', job, msgs, delta);
    GoesKeepsInv(from, rest, s', mode);
    ShowsWhenSynced(s', mode, job.loc, show);
    if delta {
      CachedMeansSent(s, job, mode);
    }
    SentSynced(s', job, msgs, delta);
  }

  lemma WayNotDone(s: State, job: Job, msgs: seq<Message>, delta: bool)
    requires job.loc !in s.tasks
    ensures !OnTheWay(s, job, msgs, delta)
  {
  }

  // ---- from the start to the lookup -------------------------------------

  /** The entry of the location is dropped on the way. */
  ghost predicate Evicted(actions: seq<Action>, loc: TileLocation) {
    exists i :: 0 <= i < |actions| && actions[i].Evict? && loc in actions[i].locs
  }

  /** Only other locations are worked on. */
  ghost predicate Elsewhere(actions: seq<Action>, loc: TileLocation) {
    forall i :: 0 <= i < |actions| && !actions[i].Evict? ==> Target(actions[i]) != loc
  }

  /** All that the location's next lookup sees is as it was, except that its entry may be gone. */
  ghost predicate SeenAs(s: State, s': State, loc: TileLocation, evicted: bool) {
    && Untouched(s, s', loc)
    && (loc in s'.cache <==> loc in s.cache && !evicted)
    && (loc in s.cache ==> s.cache[loc] < |s.objs| && s.objs[s.cache[loc]].loc == loc)
  }

  lemma CacheKept(s: State, a: Action, mode: TileMode, loc: TileLocation)
    requires Enabled(s, a, mode) && (a.Evict? || loc != Target(a))
    ensures loc in Step(s, a, mode).cache <==> loc in s.cache && !(a.Evict? && loc in a.locs)
  {
    hide GoodPic, IsDelta, FlatBytes, WireTile, Log, LookupStep, UnuseStep;
    match a {
      case Lookup(own) => LookupCache(s, own, loc);
      case Unuse(own) => UnuseCache(s, own);
      case _ =>
    }
  }

  lemma LookupCache(s: State, own: TileLocation, loc: TileLocation)
    requires loc != own && own in s.tasks && s.tasks[own].Looking? && (own in s.cache ==> s.cache[own] < |s.objs|)
    ensures loc in LookupStep(s, own).cache <==> loc in s.cache
  {
  }

  lemma UnuseCache(s: State, own: TileLocation)
    requires own in s.tasks && s.tasks[own].Replaced? && s.tasks[own].id < |s.objs|
    ensures UnuseStep(s, own).cache == s.cache
  {
  }

  lemma SeenStep(from: State, s: State, a: Action, mode: TileMode, loc: TileLocation, evicted: bool)
    requires SeenAs(from, s, loc, evicted) && Inv(s, mode) && Enabled(s, a, mode) && (a.Evict? || loc != Target(a))
    ensures SeenAs(from, Step(s, a, mode), loc, evicted || (a.Evict? && loc in a.locs))
  {
    hide Step, Enabled, LocInv;
    CacheKept(s, a, mode, loc);
    if a.Evict? {
      EvictTouches(s, a.locs, mode, loc);
    } else {
      assert LocInv(s, Target(a), mode);
      OthersUntouched(s, a, mode, loc);
    }
    UntouchedTwice(from, s, Step(s, a, mode), loc);
  }

  lemma UntouchedTwice(a: State, b: State, c: State, loc: TileLocation)
    requires Untouched(a, b, loc) && Untouched(b, c, loc)
    ensures Untouched(a, c, loc)
  {
  }

  lemma {:induction false} SeenThrough(from: State, actions: seq<Action>, s: State, mode: TileMode, loc: TileLocation)
    requires Inv(from, mode) && Goes(from, actions, s, mode) && Elsewhere(actions, loc)
    ensures SeenAs(from, s, loc, Evicted(actions, loc))
    decreases |actions|
  {
    if actions == [] {
      assert LocInv(from, loc, mode);
    } else {
      hide Step, Enabled, Inv, SeenAs;
      var n := |actions| - 1;
      var before :| Goes(from, actions[..n], before, mode) && Enabled(before, actions[n], mode) && s == Step(before, actions[n], mode);
      SeenThrough(from, actions[..n], before, mode, loc);
      GoesKeepsInv(from, actions[..n], before, mode);
      SeenStep(from, before, actions[n], mode, loc, Evicted(actions[..n], loc));
      EvictedLast(actions, loc);
    }
  }

  lemma EvictedLast(actions: seq<Action>, loc: TileLocation)
    requires actions != []
    ensures var n := |actions| - 1;
      Evicted(actions, loc) <==> Evicted(actions[..n], loc) || (actions[n].Evict? && loc in actions[n].locs)
  {
    var n := |actions| - 1;
    if i :| 0 <= i < n && actions[..n][i].Evict? && loc in actions[..n][i].locs {
      assert actions[i].Evict? && loc in actions[i].locs;
    }
    if i :| 0 <= i < n && actions[i].Evict? && loc in actions[i].locs {
      assert actions[..n][i].Evict? && loc in actions[..n][i].locs;
    }
  }

  lemma StaleSeen(s: State, s': State, job: Job, evicted: bool)
    requires SeenAs(s, s', job.loc, evicted)
    ensures Stale(s', job) <==> Stale(s, job) && !evicted
  {
    hide KeptData;
  }

  lemma Started(s: State, job: Job, mode: TileMode)
    requires Enabled(s, Start(job), mode)
    ensures var s' := Step(s, Start(job), mode);
      job.loc in s'.tasks && s'.tasks[job.loc] == Looking(job) && (Stale(s', job) <==> Stale(s, job))
  {
    hide KeptData, GoodPic;
  }

  /**
   * A whole render, told before it starts: from any reachable state, with any steps of other
   * threads before and after its lookup, it leaves the client on its picture if and only if the
   * cache is not stale for it now, or its entry is dropped before the lookup.
   */
  lemma RenderKnownBefore(past: seq<Action>, s: State, job: Job, wait: seq<Action>, at: State, rest: seq<Action>, s': State,
                          show: Pixel -> Pixel, mode: TileMode)
    requires Reaches(past, s, mode) && Enabled(s, Start(job), mode)
    requires Goes(Step(s, Start(job), mode), wait, at, mode) && Elsewhere(wait, job.loc)
    requires Enabled(at, Lookup(job.loc), mode) && Goes(Step(at, Lookup(job.loc), mode), rest, s', mode)
    requires NoOtherRender(rest, job.loc) && job.loc !in s'.tasks
    ensures ClientShows(s', job.loc, job.pic, show, mode) <==> !Stale(s, job) || Evicted(wait, job.loc)
  {
    hide Step, Enabled, Inv, Stale, ClientShows;
    var started := Step(s, Start(job), mode);
    RunKeepsInv(past, s, mode);
    StepKeepsInv(s, Start(job), mode);
    Started(s, job, mode);
    SeenThrough(started, wait, at, mode, job.loc);
    StaleSeen(started, at, job, Evicted(wait, job.loc));
    GoesKeepsInv(started, wait, at, mode);
    RenderFromLookup(at, job, rest, s', show, mode);
  }

  // ---- a render can always be finished ----------------------------------

  /** The first n rows of a tile, each drawn in two runs. */
  ghost function RedrawAll(next: Tile, width: nat, n: nat): seq<Record>
    requires Sized(next, width, |next|) && n <= |next| <= 256 && width <= 256
  {
    if n == 0 then []
    else
      var y, h := n - 1, width / 2;
      RedrawAll(next, width, y) + [Run(y, 0, next[y][..h])] + [Run(y, h, next[y][h..])]
  }

  lemma TwoRuns(image: Tile, y: nat, row: PixelRow, h: nat)
    requires y < |image| && |image[y]| == |row| && h <= |row|
    ensures PaintRun(PaintRun(image, y, 0, row[..h]), y, h, row[h..]) == image[y := row]
  {
    var once := PaintRun(image, y, 0, row[..h]);
    assert once[y] == row[..h] + image[y][h..];
    assert once[y][..h] + row[h..] + once[y][|row|..] == row;
  }

  lemma {:induction false} RedrawBuilds(held: Tile, next: Tile, width: nat, n: nat)
    requires Sized(held, width, |next|) && Sized(next, width, |next|) && n <= |next| <= 256 && width <= 256
    ensures var recs := RedrawAll(next, width, n);
      Builds(AllBytes(recs), recs, held, Blend(held, next, n), width, |next|)
  {
    if n == 0 {
      assert Blend(held, next, 0) == held;
    } else {
      hide Builds, AllBytes, RecordBytes;
      var y, h := n - 1, width / 2;
      var recs, image := RedrawAll(next, width, y), Blend(held, next, y);
      var a, b := Run(y, 0, next[y][..h]), Run(y, h, next[y][h..]);
      RedrawBuilds(held, next, width, y);
      BuildsMore(AllBytes(recs), recs, held, image, a, width, |next|);
      BuildsMore(AllBytes(recs) + RecordBytes(a), recs + [a], held, Apply(a, held, image, width, |next|), b, width, |next|);
      BytesAppend(recs, a);
      BytesAppend(recs + [a], b);
      TwoRuns(image, y, next[y], h);
      BlendStep(held, next, y);
    }
  }

  /** From any tile to any other of its size there is a delta. */
  lemma SomeDelta(held: Tile, next: Tile, width: nat, height: nat) returns (bytes: seq<Byte>)
    requires Sized(held, width, height) && Sized(next, width, height) && height <= 256 && width <= 256
    ensures IsDelta(bytes, held, next, width, height)
  {
    if held == next {
      bytes := [];
      assert DeltaOf(bytes, [], held, next, width, height);
    } else {
      var recs := RedrawAll(next, width, height);
      RedrawBuilds(held, next, width, height);
      assert Blend(held, next, height) == next;
      assert height > 0;
      bytes := AllBytes(recs) + [END];
      assert DeltaOf(bytes, recs, held, next, width, height);
    }
  }

  function StepsLeft(t: Task): nat {
    match t
    case Looking(_) => 5
    case Using(_, _) => 4
    case Encoded(_, _, _) => 3
    case Replaced(_, _, _) => 2
    case Sending(_) => 1
  }

  /** The next step of the job itself. */
  lemma NextStep(s: State, job: Job, msgs: seq<Message>, delta: bool, mode: TileMode) returns (a: Action)
    requires Inv(s, mode) && OnTheWay(s, job, msgs, delta)
    ensures Enabled(s, a, mode) && !a.Evict? && !a.Start? && Target(a) == job.loc
    ensures var s' := Step(s, a, mode); job.loc in s'.tasks ==> StepsLeft(s'.tasks[job.loc]) < StepsLeft(s.tasks[job.loc])
  {
    assert LocInv(s, job.loc, mode);
    hide IsDelta, FlatBytes, WireTile, CarriesPic, EvenBase, KeptData, Synced, SentInv, CachedInv;
    match s.tasks[job.loc] {
      case Using(_, id) =>
        if delta {
          var prev, cur := s.objs[id].pic, job.pic;
          InStepGood(msgs, prev, mode);
          WireTileSized(prev.tile, mode, prev.width, prev.height);
          WireTileSized(cur.tile, mode, cur.width, cur.height);
          var bytes := SomeDelta(WireTile(prev.tile, mode), WireTile(cur.tile, mode), cur.width, cur.height);
          a := Encode(job.loc, Some(bytes));
        } else {
          a := Encode(job.loc, None);
        }
      case Encoded(_, _, _) => a := Replace(job.loc);
      case Replaced(_, _, _) => a := Unuse(job.loc);
      case Sending(_) => a := Send(job.loc);
    }
  }

  /** A job that has looked at the cache can send its message. */
  lemma {:induction false} Finishes(from: State, actions: seq<Action>, s: State, job: Job, msgs: seq<Message>, delta: bool, mode: TileMode)
    returns (rest: seq<Action>, s': State)
    requires Inv(s, mode) && Goes(from, actions, s, mode) && NoOtherRender(actions, job.loc) && OnTheWay(s, job, msgs, delta)
    ensures Goes(from, rest, s', mode) && NoOtherRender(rest, job.loc) && job.loc !in s'.tasks
    decreases if job.loc in s.tasks then StepsLeft(s.tasks[job.loc]) else 0
  {
    hide Step, Enabled, Inv, Goes, StepsLeft, OnTheWay, Sent;
    assert job.loc in s.tasks by { WayHasTask(s, job, msgs, delta); }
    var a := NextStep(s, job, msgs, delta, mode);
    rest, s' := Then(from, actions, s, a, mode);
    StepKeepsInv(s, a, mode);
    OneStep(s, job, msgs, delta, a, mode);
    if OnTheWay(s', job, msgs, delta) {
      WayHasTask(s', job, msgs, delta);
      rest, s' := Finishes(from, rest, s', job, msgs, delta, mode);
    } else {
      SentHasNone(s', job, msgs, delta);
    }
  }

  lemma WayHasTask(s: State, job: Job, msgs: seq<Message>, delta: bool)
    requires OnTheWay(s, job, msgs, delta)
    ensures job.loc in s.tasks
  {
  }

  lemma SentHasNone(s: State, job: Job, msgs: seq<Message>, delta: bool)
    requires Sent(s, job, msgs, delta)
    ensures job.loc !in s.tasks
  {
  }

  /** From every reachable state in which a render can start it can be finished, and then decides what the client shows. */
  lemma RenderFinishes(past: seq<Action>, s: State, job: Job, show: Pixel -> Pixel, mode: TileMode) returns (actions: seq<Action>, s': State)
    requires Reaches(past, s, mode) && Enabled(s, Start(job), mode)
    ensures Goes(s, actions, s', mode) && job.loc !in s'.tasks
    ensures ClientShows(s', job.loc, job.pic, show, mode) <==> !Stale(s, job)
  {
    hide Step, Enabled, Inv, Stale, ClientShows, OnTheWay;
    var started := Step(s, Start(job), mode);
    RunKeepsInv(past, s, mode);
    StepKeepsInv(s, Start(job), mode);
    Started(s, job, mode);
    LookupDecides(started, job, mode);
    var looked := Step(started, Lookup(job.loc), mode);
    StepKeepsInv(started, Lookup(job.loc), mode);
    var rest;
    rest, s' := Finishes(looked, [], looked, job, Log(started, job.loc), SendsDelta(started, job), mode);
    RenderKnownBefore(past, s, job, [], started, rest, s', show, mode);
    var first, s1 := Then(s, [], s, Start(job), mode);
    var second, s2 := Then(s, first, s1, Lookup(job.loc), mode);
    GoesOn(s, second, looked, rest, s', mode);
    actions := second + rest;
  }

  lemma {:induction false} GoesOn(a: State, first: seq<Action>, b: State, rest: seq<Action>, c: State, mode: TileMode)
    requires Goes(a, first, b, mode) && Goes(b, rest, c, mode)
    ensures Goes(a, first + rest, c, mode)
    decreases |rest|
  {
    hide Step, Enabled;
    if rest == [] {
      assert first + rest == first;
    } else {
      var n := |rest| - 1;
      var before :| Goes(b, rest[..n], before, mode) && Enabled(before, rest[n], mode) && c == Step(before, rest[n], mode);
      GoesOn(a, first, b, rest[..n], before, mode);
      assert (first + rest)[..|first + rest| - 1] == first + rest[..n];
    }
  }
}
