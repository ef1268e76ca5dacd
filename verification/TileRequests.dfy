/** What becomes of a tile request: delivered, still queued, or dropped for a request in another mode or with another preview id. */
module TileRequests {
  import opened Wrappers
  import opened Messages
  import opened QueuePut
  import opened QueueGet
  import opened QueueRuns
  import QueueInvariants
  import Pixels

  /** The preview id, or -1 for a tile of the document. */
  function Kind(t: TileDesc): int { if t.id < 0 then -1 else t.id }

  /** What is to be seen on a tile, and what it is for. */
  datatype Picture = Picture(
    nviewid: nat, part: nat, mode: nat, width: Pos, height: Pos, posX: nat, posY: nat, tileWidth: Pos, tileHeight: Pos, kind: int)

  function PictureOf(t: TileDesc): Picture {
    Picture(t.nviewid, t.part, t.mode, t.width, t.height, t.posX, t.posY, t.tileWidth, t.tileHeight, Kind(t))
  }

  /** The same request but for its version. */
  predicate SameRequest(a: TileDesc, b: TileDesc) { TileKey(a) == TileKey(b) && a.mode == b.mode && Kind(a) == Kind(b) }

  predicate Requests(m: Msg, t: TileDesc) { m.TileMsg? && SameRequest(m.desc, t) }

  ghost predicate Queued(q: seq<Msg>, t: TileDesc) { exists i :: 0 <= i < |q| && Requests(q[i], t) }

  /** A message that was taken asks for the picture. */
  ghost predicate Answers(m: Msg, t: TileDesc) { exists u :: u in ResultTiles(m) && PictureOf(u) == PictureOf(t) }

  lemma SamePicture(a: TileDesc, b: TileDesc)
    requires SameRequest(a, b)
    ensures PictureOf(a) == PictureOf(b)
  {
    var x, y := TileKey(a), TileKey(b);
    assert a.nviewid == x.nviewid && a.part == x.part && a.width == x.width && a.height == x.height;
    assert a.posX == x.posX && a.posY == x.posY && a.tileWidth == x.tileWidth && a.tileHeight == x.tileHeight;
  }

  // ---- puts -------------------------------------------------------------

  /** The last of some tiles with a key. */
  function LastWith(tiles: seq<TileDesc>, key: TileDesc): (r: Option<TileDesc>)
    ensures r.Some? ==> TileKey(r.value) == key
  {
    if tiles == [] then None
    else if TileKey(tiles[|tiles| - 1]) == key then Some(tiles[|tiles| - 1])
    else LastWith(tiles[..|tiles| - 1], key)
  }

  /** What is put for the key of the request, if anything, is in the end the same request. */
  predicate SafeFor(m: Msg, t: TileDesc) {
    var last := LastWith(ResultTiles(m), TileKey(t)); last.Some? ==> SameRequest(last.value, t)
  }

  lemma OneKept(q: seq<Msg>, m: Msg, t: TileDesc)
    requires Queued(q, t) && !m.TileCombine? && (m.TileMsg? && TileKey(m.desc) == TileKey(t) ==> Requests(m, t))
    ensures Queued(PutOne(q, m), t)
  {
    hide FindEdit, FindFirst, Absorb, Requests;
    var d := PutDrop(q, m);
    var i :| 0 <= i < |q| && Requests(q[i], t);
    if i in d {
      DroppedByTile(q, m, i, t);
      assert PutOne(q, m)[|Without(q, d)|] == m;
    } else {
      WithoutAt(q, d, i);
      assert Requests(PutOne(q, m)[NewIndex(d, i)], t);
    }
  }

  lemma DroppedByTile(q: seq<Msg>, m: Msg, i: nat, t: TileDesc)
    requires i < |q| && Requests(q[i], t) && i in PutDrop(q, m)
    ensures m.TileMsg? && TileKey(m.desc) == TileKey(t) && PutNew(q, m) == m
  {
    hide FindEdit, FindFirst, Absorb, TileKey;
  }

  lemma TileAppended(q: seq<Msg>, u: TileDesc)
    ensures PutOne(q, TileMsg(u)) == Without(q, PutDrop(q, TileMsg(u))) + [TileMsg(u)]
  {
    hide PutDrop;
  }

  lemma {:induction false} TilesKept(q: seq<Msg>, tiles: seq<TileDesc>, t: TileDesc)
    requires var last := LastWith(tiles, TileKey(t)); if last.Some? then SameRequest(last.value, t) else Queued(q, t)
    ensures Queued(PutTiles(q, tiles), t)
  {
    if tiles != [] {
      hide PutOne, TileKey;
      var front, u := tiles[..|tiles| - 1], tiles[|tiles| - 1];
      var before := PutTiles(q, front);
      if TileKey(u) == TileKey(t) {
        TileAppended(before, u);
        assert Requests(PutOne(before, TileMsg(u))[|PutOne(before, TileMsg(u))| - 1], t);
      } else {
        TilesKept(q, front, t);
        OneKept(before, TileMsg(u), t);
      }
    }
  }

  /** A request stays queued if the message is safe for it. */
  lemma RequestKept(q: seq<Msg>, m: Msg, t: TileDesc)
    requires Queued(q, t) && SafeFor(m, t)
    ensures Queued(Put(q, m), t)
  {
    hide PutOne, Queued, TileKey;
    if m.TileCombine? {
      TilesKept(q, m.tiles, t);
    } else {
      if m.TileMsg? {
        OneTile(m, t);
      }
      OneKept(q, m, t);
    }
  }

  lemma OneTile(m: Msg, t: TileDesc)
    requires m.TileMsg?
    ensures LastWith([m.desc], TileKey(t)) == if TileKey(m.desc) == TileKey(t) then Some(m.desc) else None
    ensures SafeFor(m, t) <==> (TileKey(m.desc) == TileKey(t) ==> SameRequest(m.desc, t))
  {
    hide TileKey;
    var tiles := [m.desc];
    assert tiles[..|tiles| - 1] == [] && ResultTiles(m) == tiles;
    assert LastWith([], TileKey(t)) == None;
  }

  // ---- what is dropped --------------------------------------------------

  /** A tile with the key, but another mode or preview id, leaves no such request in a queue that has at most one for each key. */
  lemma OneDropped(q: seq<Msg>, u: TileDesc, t: TileDesc)
    requires QueueInvariants.Unique(q) && TileKey(u) == TileKey(t) && !SameRequest(u, t)
    ensures !Queued(PutOne(q, TileMsg(u)), t)
  {
    hide PutDrop, PutOne, QueueInvariants.Unique;
    var m := TileMsg(u);
    TileAppended(q, u);
    forall i | 0 <= i < |PutOne(q, m)| ensures !Requests(PutOne(q, m)[i], t) {
      if i < |PutOne(q, m)| - 1 {
        QueueInvariants.NoneOfClassLeft(q, m, i);
      }
    }
  }

  lemma OtherDropped(q: seq<Msg>, u: TileDesc, t: TileDesc)
    requires !Queued(q, t) && TileKey(u) != TileKey(t)
    ensures !Queued(PutOne(q, TileMsg(u)), t)
  {
    hide PutDrop, PutOne, Requests;
    var m := TileMsg(u);
    var d := PutDrop(q, m);
    TileAppended(q, u);
    assert !Requests(m, t) by { NotThis(m, t); }
    forall i | 0 <= i < |PutOne(q, m)| ensures !Requests(PutOne(q, m)[i], t) {
      if i < |Without(q, d)| {
        var k := WithoutFrom(q, d, i);
      }
    }
  }

  lemma NotThis(m: Msg, t: TileDesc)
    requires m.TileMsg? && TileKey(m.desc) != TileKey(t)
    ensures !Requests(m, t)
  {
  }

  lemma {:induction false} TilesDropped(q: seq<Msg>, tiles: seq<TileDesc>, t: TileDesc)
    requires QueueInvariants.Unique(q) && QueueInvariants.Newest(q, [])
    requires LastWith(tiles, TileKey(t)).Some? && !SameRequest(LastWith(tiles, TileKey(t)).value, t)
    ensures !Queued(PutTiles(q, tiles), t)
  {
    hide PutOne, TileKey, Queued, QueueInvariants.Unique, QueueInvariants.Newest;
    var front, u := tiles[..|tiles| - 1], tiles[|tiles| - 1];
    QueueInvariants.PutTilesKeeps(q, [], front);
    if TileKey(u) == TileKey(t) {
      OneDropped(PutTiles(q, front), u, t);
    } else {
      TilesDropped(q, front, t);
      OtherDropped(PutTiles(q, front), u, t);
    }
  }

  /** A message that is not safe for a request drops it where it is queued alone. */
  lemma UnsafeDrops(m: Msg, t: TileDesc)
    requires !SafeFor(m, t)
    ensures Queued([TileMsg(t)], t) && !Queued(Put([TileMsg(t)], m), t)
  {
    hide PutOne, TileKey;
    var q := [TileMsg(t)];
    assert Requests(q[0], t);
    assert QueueInvariants.Unique(q) && QueueInvariants.Newest(q, []);
    if m.TileCombine? {
      TilesDropped(q, m.tiles, t);
    } else {
      OneTile(m, t);
      OneDropped(q, m.desc, t);
    }
  }

  /** A message drops a request from no queue exactly when what it puts for that key, if anything, is the same request. */
  lemma RequestKeptExactlyWhen(m: Msg, t: TileDesc)
    ensures (forall q :: Queued(q, t) ==> Queued(Put(q, m), t)) <==> SafeFor(m, t)
  {
    hide Queued, SafeFor, Put;
    if SafeFor(m, t) {
      forall q | Queued(q, t) ensures Queued(Put(q, m), t) {
        RequestKept(q, m, t);
      }
    } else {
      UnsafeDrops(m, t);
    }
  }

  /** The two ways: a request for another edit mode, and a preview of the same place. */
  lemma OtherModeDrops(t: TileDesc)
    ensures !Queued(Put([TileMsg(t)], TileMsg(t.(mode := t.mode + 1))), t)
    ensures t.id < 0 ==> !Queued(Put([TileMsg(t)], TileMsg(t.(id := 0))), t)
  {
    hide Queued, Put;
    var a, b := t.(mode := t.mode + 1), t.(id := 0);
    assert TileKey(a) == TileKey(t) && TileKey(b) == TileKey(t);
    OneTile(TileMsg(a), t);
    UnsafeDrops(TileMsg(a), t);
    OneTile(TileMsg(b), t);
    if t.id < 0 {
      UnsafeDrops(TileMsg(b), t);
    }
  }

  // ---- gets -------------------------------------------------------------

  lemma AllAlike(q: seq<Msg>, p: nat, u: TileDesc)
    requires p < |q| && IsPlainTile(q[p]) && u in [q[p].desc] + Partners(q, p, |q|)
    ensures u.id < 0 && SameParams(q[p].desc, u)
  {
    hide Partners;
    if u != q[p].desc {
      PartnersTaken(q, p, |q|, u);
    }
  }

  /** Each tile that is taken is among the tiles returned, or another one for the same picture. */
  lemma TakenAnswered(q: seq<Msg>, p: nat, i: nat) returns (u: TileDesc)
    requires p < |q| && IsPlainTile(q[p]) && i in CombineDrop(q, p)
    ensures i < |q| && IsPlainTile(q[i]) && u in Dedup([q[p].desc] + Partners(q, p, |q|)) && PictureOf(u) == PictureOf(q[i].desc)
  {
    hide Partners, Dedup, CanCombine;
    var all, x := [q[p].desc] + Partners(q, p, |q|), q[i].desc;
    PartnersTaken(q, p, |q|, x);
    assert x in all;
    DedupDistinct(all);
    assert Pixels.Position(x.posX, x.posY) in Positions(Dedup(all));
    u :| u in Dedup(all) && Pixels.Position(u.posX, u.posY) == Pixels.Position(x.posX, x.posY);
    AllAlike(q, p, u);
    AllAlike(q, p, x);
  }

  lemma OnlyOne(t: TileDesc)
    ensures Dedup([t] + []) == [t]
  {
    assert ([t] + [])[1..] == [] && [t] + [] == [t];
  }

  lemma PlainGet(q: seq<Msg>, c: Cursors, i: nat, t: TileDesc)
    requires q != [] && IsPlainTile(q[0]) && i < |q| && Requests(q[i], t) && i in GetDrop(q, c)
    ensures Answers(GetResult(q, c), t)
  {
    hide Best, Partners, Dedup, CombineDrop, TileKey;
    var p := Best(q, c, LeadingTiles(q));
    var partners := Partners(q, p, |q|);
    var u := TakenAnswered(q, p, i);
    SamePicture(q[i].desc, t);
    if partners == [] {
      OnlyOne(q[p].desc);
    }
    assert u in ResultTiles(GetResult(q, c));
  }

  lemma PreviewGet(q: seq<Msg>, c: Cursors, i: nat, t: TileDesc)
    requires q != [] && IsPreview(q[0]) && i < |q| && Requests(q[i], t) && i in GetDrop(q, c)
    ensures Answers(GetResult(q, c), t) || Queued(GetQueue(q, c), t)
  {
    hide TileKey, Requests;
    if i == 0 {
      assert Answers(GetResult(q, c), t) by { FrontAnswers(q[0], t); }
    } else {
      var w := Without(q, GetDrop(q, c));
      assert GetMoved(q)[i - 1] == q[i];
      assert Requests(GetQueue(q, c)[|w| + i - 1], t);
    }
  }

  lemma FrontAnswers(m: Msg, t: TileDesc)
    requires Requests(m, t)
    ensures Answers(m, t)
  {
    SamePicture(m.desc, t);
    assert m.desc in ResultTiles(m);
  }

  /** A queued request is answered by a get, or stays queued. */
  lemma GetKeeps(q: seq<Msg>, c: Cursors, t: TileDesc)
    requires q != [] && Queued(q, t)
    ensures Answers(GetResult(q, c), t) || Queued(GetQueue(q, c), t)
  {
    hide GetDrop, GetResult, GetMoved, Answers;
    var drop := GetDrop(q, c);
    var i: nat :| i < |q| && Requests(q[i], t);
    if i !in drop {
      WithoutAt(q, drop, i);
      assert Requests(GetQueue(q, c)[NewIndex(drop, i)], t);
    } else if IsPlainTile(q[0]) {
      PlainGet(q, c, i, t);
    } else if IsPreview(q[0]) {
      PreviewGet(q, c, i, t);
    } else {
      WhoLeaves(q, c);
    }
  }

  // ---- runs -------------------------------------------------------------

  ghost predicate Answered(delivered: seq<Msg>, t: TileDesc) { exists i :: 0 <= i < |delivered| && Answers(delivered[i], t) }

  /** Answered from the n-th delivered message on, or still queued. */
  ghost predicate StillComing(s: State, n: nat, t: TileDesc) {
    n <= |s.delivered| && (Answered(s.delivered[n..], t) || Queued(s.queue, t))
  }

  lemma AnsweredMore(delivered: seq<Msg>, m: Msg, t: TileDesc)
    ensures Answered(delivered + [m], t) <==> Answered(delivered, t) || Answers(m, t)
  {
    hide Answers;
    if i :| 0 <= i < |delivered| && Answers(delivered[i], t) {
      assert Answers((delivered + [m])[i], t);
    }
    if Answers(m, t) {
      assert Answers((delivered + [m])[|delivered|], t);
    }
  }

  predicate SafeOp(op: Op, t: TileDesc) { op.PutOp? ==> SafeFor(op.msg, t) }

  lemma StepKeeps(s: State, op: Op, n: nat, t: TileDesc)
    requires SafeOp(op, t) && StillComing(s, n, t)
    ensures StillComing(Step(s, op), n, t)
  {
    hide Put, GetQueue, GetResult, Answers, Answered, Queued, SafeFor;
    match op {
      case PutOp(m) =>
        if Queued(s.queue, t) {
          RequestKept(s.queue, m, t);
        }
      case GetOp =>
        if s.queue != [] {
          var r := GetResult(s.queue, s.cursors);
          assert (s.delivered + [r])[n..] == s.delivered[n..] + [r];
          AnsweredMore(s.delivered[n..], r, t);
          if Queued(s.queue, t) {
            GetKeeps(s.queue, s.cursors, t);
          }
        }
      case _ =>
    }
  }

  lemma {:induction false} RunKeeps(s: State, ops: seq<Op>, n: nat, t: TileDesc)
    requires StillComing(s, n, t) && forall i :: 0 <= i < |ops| ==> SafeOp(ops[i], t)
    ensures StillComing(RunFrom(s, ops), n, t)
    decreases |ops|
  {
    hide StillComing, Step, SafeOp;
    if ops != [] {
      var front, op := ops[..|ops| - 1], ops[|ops| - 1];
      RunKeeps(s, front, n, t);
      StepKeeps(RunFrom(s, front), op, n, t);
    }
  }

  /** Queued now, and answered from now on or still queued after the operations. */
  ghost predicate KeptThrough(s: State, t: TileDesc, ops: seq<Op>) {
    StillComing(RunFrom(Step(s, PutOp(TileMsg(t))), ops), |s.delivered|, t)
  }

  /** After a tile has been requested, whatever is taken, and whatever is put that is safe for it: its picture is delivered, or the request still queued. */
  lemma NothingForgotten(s: State, t: TileDesc, ops: seq<Op>)
    requires forall i :: 0 <= i < |ops| ==> SafeOp(ops[i], t)
    ensures KeptThrough(s, t, ops)
  {
    hide RunFrom, SafeOp, Answered, PutOne;
    TilesKept(s.queue, [t], t);
    OneTileIs(s.queue, t);
    RunKeeps(Step(s, PutOp(TileMsg(t))), ops, |s.delivered|, t);
  }

  lemma OneTileIs(q: seq<Msg>, t: TileDesc)
    ensures LastWith([t], TileKey(t)) == Some(t) && PutTiles(q, [t]) == Put(q, TileMsg(t))
  {
    hide PutOne;
    assert [t][..0] == [];
    assert PutTiles(q, []) == q;
  }

  /** In runs that put only messages from a collection a request is never dropped, exactly when every one of them is safe for it. */
  lemma NothingForgottenExactlyWhen(all: iset<Msg>, t: TileDesc)
    ensures (forall s, ops :: PutsFrom(all, ops) ==> KeptThrough(s, t, ops)) <==> (forall x :: x in all ==> SafeFor(x, t))
  {
    hide KeptThrough, SafeFor;
    if forall x :: x in all ==> SafeFor(x, t) {
      forall s, ops | PutsFrom(all, ops) ensures KeptThrough(s, t, ops) {
        NothingForgotten(s, t, ops);
      }
    } else {
      var x :| x in all && !SafeFor(x, t);
      UnsafePutDrops(x, t);
      assert PutsFrom(all, [PutOp(x)]);
    }
  }

  lemma UnsafePutDrops(x: Msg, t: TileDesc)
    requires !SafeFor(x, t)
    ensures !KeptThrough(INIT, t, [PutOp(x)])
  {
    hide SafeFor, Queued, Put;
    UnsafeDrops(x, t);
    assert Put([], TileMsg(t)) == [TileMsg(t)] by { PutFirst(t); }
    var s := Step(INIT, PutOp(TileMsg(t)));
    assert [PutOp(x)][..0] == [] && RunFrom(s, []) == s;
    assert RunFrom(s, [PutOp(x)]) == Step(s, PutOp(x));
  }

  lemma PutFirst(t: TileDesc)
    ensures Put([], TileMsg(t)) == [TileMsg(t)]
  {
  }
}
