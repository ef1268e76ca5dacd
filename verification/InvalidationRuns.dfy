/** No invalidation is lost over whole runs of puts and gets. */
module InvalidationRuns {
  import opened Messages
  import opened QueuePut
  import opened QueueGet
  import opened QueueRuns
  import opened Invalidations

  predicate PlainOp(op: Op) { op.PutOp? ==> Plain(op.msg) }

  /** No put of such an operation takes the spot away. */
  predicate SafeOp(op: Op, spot: Spot) { op.PutOp? ==> SafeFor(op.msg, spot) }

  lemma PlainKept(q: seq<Msg>, m: Msg)
    requires AllPlain(q) && Plain(m)
    ensures AllPlain(PutOne(q, m))
  {
    hide FindEdit, FindFirst, Absorb, PutDrop;
    var d := PutDrop(q, m);
    forall j | 0 <= j < |PutOne(q, m)| ensures Plain(PutOne(q, m)[j]) {
      if j < |Without(q, d)| {
        var k := WithoutFrom(q, d, j);
      }
    }
  }

  lemma {:induction false} PlainKeptTiles(q: seq<Msg>, tiles: seq<TileDesc>)
    requires AllPlain(q)
    ensures AllPlain(PutTiles(q, tiles))
  {
    if tiles != [] {
      hide AllPlain, PutOne;
      var front := tiles[..|tiles| - 1];
      PlainKeptTiles(q, front);
      PlainKept(PutTiles(q, front), TileMsg(tiles[|tiles| - 1]));
    }
  }

  lemma PlainGet(q: seq<Msg>, c: Cursors)
    requires q != [] && AllPlain(q)
    ensures AllPlain(GetQueue(q, c))
  {
    hide GetDrop, Plain;
    var drop, moved := GetDrop(q, c), GetMoved(q);
    forall j | 0 <= j < |GetQueue(q, c)| ensures Plain(GetQueue(q, c)[j]) {
      if j < |Without(q, drop)| {
        var k := WithoutFrom(q, drop, j);
      } else {
        TilePlain(moved[j - |Without(q, drop)|]);
      }
    }
  }

  lemma TilePlain(m: Msg)
    requires m.TileMsg?
    ensures Plain(m) && forall s :: !Covers(m, s)
  {
  }

  lemma PlainStep(s: State, op: Op)
    requires AllPlain(s.queue) && PlainOp(op)
    ensures AllPlain(Step(s, op).queue)
  {
    hide AllPlain, PutOne, GetQueue, GetResult, Plain;
    match op {
      case PutOp(m) =>
        if m.TileCombine? {
          PlainKeptTiles(s.queue, m.tiles);
        } else {
          PlainKept(s.queue, m);
        }
      case GetOp =>
        if s.queue != [] {
          PlainGet(s.queue, s.cursors);
        }
      case _ =>
    }
  }

  /** What covers a spot is returned, or stays queued. */
  lemma GetCovers(q: seq<Msg>, c: Cursors, s: Spot)
    requires q != [] && Covered(q, s)
    ensures Covers(GetResult(q, c), s) || Covered(GetQueue(q, c), s)
  {
    hide GetDrop, GetResult, Covers;
    WhoLeaves(q, c);
    var drop := GetDrop(q, c);
    var i: nat :| i < |q| && Covers(q[i], s);
    if q[i].TileMsg? {
      TilePlain(q[i]);
    }
    if i !in drop {
      WithoutAt(q, drop, i);
      assert Covers(GetQueue(q, c)[NewIndex(drop, i)], s);
    }
  }

  lemma CoveredEither(a: seq<Msg>, b: seq<Msg>, s: Spot)
    ensures Covered(a + b, s) <==> Covered(a, s) || Covered(b, s)
  {
    hide Covers;
    if i :| 0 <= i < |a| && Covers(a[i], s) {
      assert Covers((a + b)[i], s);
    }
    if i :| 0 <= i < |b| && Covers(b[i], s) {
      assert Covers((a + b)[|a| + i], s);
    }
  }

  /** Covered by what was delivered from the n-th message on, or by the queue. */
  ghost predicate StillComing(s: State, n: nat, spot: Spot) {
    n <= |s.delivered| && (Covered(s.delivered[n..], spot) || Covered(s.queue, spot))
  }

  /** Runs of safe puts on any queue, or of plain puts on a plain one. */
  ghost predicate StepKeeps(s: State, op: Op, spot: Spot) {
    SafeOp(op, spot) || (AllPlain(s.queue) && PlainOp(op))
  }

  lemma StepCovers(s: State, op: Op, n: nat, spot: Spot)
    requires StepKeeps(s, op, spot) && StillComing(s, n, spot)
    ensures StillComing(Step(s, op), n, spot)
  {
    hide AllPlain, Put, GetQueue, GetResult, Covers, Covered, Plain, SafeFor;
    match op {
      case PutOp(m) =>
        if Covered(s.queue, spot) {
          if SafeFor(m, spot) {
            AreaKept(s.queue, m, spot);
          } else {
            PlainKeeps(s.queue, m, spot);
          }
        }
      case GetOp =>
        if s.queue != [] {
          var r := GetResult(s.queue, s.cursors);
          assert (s.delivered + [r])[n..] == s.delivered[n..] + [r];
          CoveredEither(s.delivered[n..], [r], spot);
          if Covered(s.queue, spot) {
            GetCovers(s.queue, s.cursors, spot);
            assert Covers(r, spot) ==> Covered([r], spot) by { CoveredOne(r, spot); }
          }
        }
      case _ =>
    }
  }

  lemma CoveredOne(m: Msg, s: Spot)
    ensures Covers(m, s) ==> Covered([m], s)
  {
    hide Covers;
    assert [m][0] == m;
  }

  lemma {:induction false} RunCovers(s: State, ops: seq<Op>, n: nat, spot: Spot)
    requires StillComing(s, n, spot) && forall i :: 0 <= i < |ops| ==> SafeOp(ops[i], spot)
    ensures StillComing(RunFrom(s, ops), n, spot)
    decreases |ops|
  {
    hide StillComing, Step, SafeOp, AllPlain, PlainOp;
    if ops != [] {
      var front, op := ops[..|ops| - 1], ops[|ops| - 1];
      RunCovers(s, front, n, spot);
      StepCovers(RunFrom(s, front), op, n, spot);
    }
  }

  lemma {:induction false} PlainRunCovers(s: State, ops: seq<Op>, n: nat, spot: Spot)
    requires AllPlain(s.queue) && StillComing(s, n, spot) && forall i :: 0 <= i < |ops| ==> PlainOp(ops[i])
    ensures AllPlain(RunFrom(s, ops).queue) && StillComing(RunFrom(s, ops), n, spot)
    decreases |ops|
  {
    hide StillComing, Step, SafeOp, AllPlain, PlainOp;
    if ops != [] {
      var front, op := ops[..|ops| - 1], ops[|ops| - 1];
      PlainRunCovers(s, front, n, spot);
      PlainStep(RunFrom(s, front), op);
      StepCovers(RunFrom(s, front), op, n, spot);
    }
  }

  /** Queued now, and delivered from now on or still queued after the operations. */
  ghost predicate KeptThrough(s: State, m: Msg, ops: seq<Op>, spot: Spot) {
    StillComing(RunFrom(Step(s, PutOp(m)), ops), |s.delivered|, spot)
  }

  lemma JustQueued(s: State, m: Msg, spot: Spot)
    requires Covers(m, spot)
    ensures StillComing(Step(s, PutOp(m)), |s.delivered|, spot)
  {
    hide Put, Covers, Covered, SafeFor;
    CoversSafe(m, spot);
    AreaKept(s.queue, m, spot);
  }

  /**
   * After an invalidation has been put into any queue, whatever is taken, and whatever is put that
   * is safe for the spot: every spot it covers is covered by a message delivered since, or by one
   * that is still queued.
   */
  lemma NothingLost(s: State, m: Msg, ops: seq<Op>, spot: Spot)
    requires Covers(m, spot) && forall i :: 0 <= i < |ops| ==> SafeOp(ops[i], spot)
    ensures KeptThrough(s, m, ops, spot)
  {
    hide StillComing, Step, Covers, SafeOp;
    JustQueued(s, m, spot);
    RunCovers(Step(s, PutOp(m)), ops, |s.delivered|, spot);
  }

  /** The same while no "EMPTY" with a mode is queued or put. */
  lemma NothingPlainLost(s: State, m: Msg, ops: seq<Op>, spot: Spot)
    requires AllPlain(s.queue) && Plain(m) && Covers(m, spot) && forall i :: 0 <= i < |ops| ==> PlainOp(ops[i])
    ensures KeptThrough(s, m, ops, spot)
  {
    hide StillComing, Step, Covers, Plain;
    JustQueued(s, m, spot);
    PlainStep(s, PutOp(m));
    PlainRunCovers(Step(s, PutOp(m)), ops, |s.delivered|, spot);
  }

  /** In runs that put only messages from a collection a spot is never lost, exactly when every one of them is safe for it. */
  lemma NothingLostExactlyWhen(all: iset<Msg>, spot: Spot)
    ensures (forall s, m, ops :: Covers(m, spot) && PutsFrom(all, ops) ==> KeptThrough(s, m, ops, spot))
            <==> (forall x :: x in all ==> SafeFor(x, spot))
  {
    hide KeptThrough, Covers, SafeFor;
    if forall x :: x in all ==> SafeFor(x, spot) {
      forall s, m, ops | Covers(m, spot) && PutsFrom(all, ops) ensures KeptThrough(s, m, ops, spot) {
        NothingLost(s, m, ops, spot);
      }
    } else {
      var x :| x in all && !SafeFor(x, spot);
      UnsafePutLoses(x, spot);
      assert PutsFrom(all, [PutOp(x)]);
    }
  }

  lemma UnsafePutLoses(x: Msg, spot: Spot)
    requires !SafeFor(x, spot)
    ensures Covers(Victim(spot), spot) && !KeptThrough(INIT, Victim(spot), [PutOp(x)], spot)
  {
    hide SafeFor, Covered;
    UnsafeLoses(x, spot);
    assert Put([], Victim(spot)) == [Victim(spot)] by { PutFirst(spot); }
    var s := Step(INIT, PutOp(Victim(spot)));
    assert [PutOp(x)][..0] == [] && RunFrom(s, []) == s;
    assert RunFrom(s, [PutOp(x)]) == Step(s, PutOp(x));
    assert !Covered([], spot) by { NothingCovered(spot); }
    assert Covers(Victim(spot), spot) by { VictimCovers(spot); }
  }

  lemma VictimCovers(spot: Spot)
    requires Covered([Victim(spot)], spot)
    ensures Covers(Victim(spot), spot)
  {
  }

  lemma NothingCovered(spot: Spot)
    ensures !Covered([], spot)
  {
  }

  lemma PutFirst(spot: Spot)
    ensures Put([], Victim(spot)) == [Victim(spot)]
  {
  }
}
