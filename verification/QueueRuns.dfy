/** Whole runs of puts, gets and cursor moves on the tile queue. */
module QueueRuns {
  import opened Messages
  import opened QueuePut
  import opened QueueGet
  import opened TextEdits

  datatype Op = PutOp(msg: Msg) | GetOp | CursorOp(view: int, cursor: Cursor) | NoCursorOp(view: int)

  /** The queue, with all messages ever sent to it and returned by it. */
  datatype State = State(queue: seq<Msg>, delivered: seq<Msg>, sent: seq<Msg>, cursors: Cursors)

  const INIT := State([], [], [], Cursors(map[], []))

  function RemoveValue(order: seq<int>, view: int): seq<int> {
    if order == [] then [] else if order[0] == view then order[1..] else [order[0]] + RemoveValue(order[1..], view)
  }

  function UpdateCursor(c: Cursors, view: int, cursor: Cursor): Cursors {
    Cursors(c.positions[view := cursor], RemoveValue(c.order, view) + [view])
  }

  function RemoveCursor(c: Cursors, view: int): Cursors {
    Cursors(c.positions - {view}, RemoveValue(c.order, view))
  }

  /** A view whose cursor moves becomes the newest, with that cursor; the others keep theirs and their order. */
  lemma CursorMoves(c: Cursors, view: int, cursor: Cursor)
    ensures var after := UpdateCursor(c, view, cursor);
      && view in after.positions && after.positions[view] == cursor
      && (forall v :: v != view ==> (v in after.positions <==> v in c.positions))
      && (forall v :: v != view && v in c.positions ==> after.positions[v] == c.positions[v])
      && after.order != [] && after.order[|after.order| - 1] == view
      && TakenOut(c.order, view, after.order[..|after.order| - 1])
  {
    TakesOut(c.order, view);
    var kept := RemoveValue(c.order, view);
    assert (kept + [view])[..|kept|] == kept;
  }

  /** A view that is gone has no cursor and no place; the others keep theirs. */
  lemma CursorGoes(c: Cursors, view: int)
    ensures var after := RemoveCursor(c, view);
      && view !in after.positions && (forall v :: v != view ==> (v in after.positions <==> v in c.positions))
      && (forall v :: v != view && v in c.positions ==> after.positions[v] == c.positions[v])
      && TakenOut(c.order, view, after.order)
  {
    TakesOut(c.order, view);
  }

  /** What is left of an order once a view is taken out at its first place. */
  ghost predicate TakenOut(order: seq<int>, view: int, left: seq<int>) {
    if view !in order then left == order
    else exists k :: 0 <= k < |order| && order[k] == view && view !in order[..k] && left == order[..k] + order[k + 1..]
  }

  lemma {:induction false} TakesOut(order: seq<int>, view: int)
    ensures TakenOut(order, view, RemoveValue(order, view))
  {
    if order != [] {
      var rest := order[1..];
      assert order == [order[0]] + rest;
      if order[0] == view {
        assert order[..0] + order[0 + 1..] == rest;
      } else if view in rest {
        TakesOut(rest, view);
        var k: nat :| k < |rest| && rest[k] == view && view !in rest[..k] && RemoveValue(rest, view) == rest[..k] + rest[k + 1..];
        OneLater(order, view, k);
      } else {
        TakesOut(rest, view);
      }
    }
  }

  lemma OneLater(order: seq<int>, view: int, k: nat)
    requires order != [] && order[0] != view
    requires var rest := order[1..]; k < |rest| && rest[k] == view && view !in rest[..k] && RemoveValue(rest, view) == rest[..k] + rest[k + 1..]
    ensures TakenOut(order, view, RemoveValue(order, view))
  {
    hide RemoveValue;
    var rest := order[1..];
    CutLater(order[0], rest, k);
    assert order == [order[0]] + rest;
    assert RemoveValue(order, view) == [order[0]] + RemoveValue(rest, view) by { RemovedLater(order, view); }
    assert order[k + 1] == view && view !in order[..k + 1];
  }

  lemma RemovedLater(order: seq<int>, view: int)
    requires order != [] && order[0] != view
    ensures RemoveValue(order, view) == [order[0]] + RemoveValue(order[1..], view)
  {
  }

  lemma CutLater(h: int, rest: seq<int>, k: nat)
    requires k < |rest|
    ensures var o := [h] + rest;
      && o[k + 1] == rest[k] && o[..k + 1] == [h] + rest[..k] && o[k + 1 + 1..] == rest[k + 1..]
      && [h] + (rest[..k] + rest[k + 1..]) == o[..k + 1] + o[k + 1 + 1..]
  {
  }

  function Step(s: State, op: Op): State {
    match op
    case PutOp(m) => s.(queue := Put(s.queue, m), sent := s.sent + [m])
    case GetOp =>
      if s.queue == [] then s
      else s.(queue := GetQueue(s.queue, s.cursors), delivered := s.delivered + [GetResult(s.queue, s.cursors)])
    case CursorOp(view, cursor) => s.(cursors := UpdateCursor(s.cursors, view, cursor))
    case NoCursorOp(view) => s.(cursors := RemoveCursor(s.cursors, view))
  }

  function Run(ops: seq<Op>): State {
    if ops == [] then INIT else Step(Run(ops[..|ops| - 1]), ops[|ops| - 1])
  }

  // ---- text edits -------------------------------------------------------

  lemma {:induction false} PutTilesSees(delivered: seq<Msg>, q: seq<Msg>, tiles: seq<TileDesc>, client: string, id: string)
    ensures Sees(delivered, PutTiles(q, tiles), client, id) == Sees(delivered, q, client, id)
  {
    if tiles != [] {
      hide Combined, PutOne, FindEdit, Pieces;
      var before, m := PutTiles(q, tiles[..|tiles| - 1]), TileMsg(tiles[|tiles| - 1]);
      PutTilesSees(delivered, q, tiles[..|tiles| - 1], client, id);
      OtherPut(delivered, before, m, client, id);
      var ps := Pieces(delivered, client, id) + Pieces(before, client, id);
      assert ps + [] == ps;
    }
  }

  /** What is taken is seen just as it was in the queue, and nothing else moves. */
  lemma GetPieces(q: seq<Msg>, c: Cursors, client: string, id: string)
    requires q != []
    ensures PieceOf(GetResult(q, c), client, id) + Pieces(GetQueue(q, c), client, id) == Pieces(q, client, id)
  {
    hide GetDrop, GetResult, Pieces;
    WhoLeaves(q, c);
    var drop, moved := GetDrop(q, c), GetMoved(q);
    if q[0].TileMsg? {
      PiecesWithout(q, drop, client, id);
      NoPieces(moved, client, id);
      PiecesConcat(Without(q, drop), moved, client, id);
      assert GetResult(q, c).TileMsg? || GetResult(q, c).TileCombine? by { TileResult(q, c); }
    } else {
      GetFirst(q, c);
      PiecesConcat([q[0]], q[1..], client, id);
      assert [q[0]] + q[1..] == q;
      OnePiece(q[0], client, id);
    }
  }

  lemma GetFirst(q: seq<Msg>, c: Cursors)
    requires q != [] && !q[0].TileMsg?
    ensures GetQueue(q, c) == q[1..]
  {
    hide GetDrop, GetResult;
    WhoLeaves(q, c);
    WithoutOne(q, 0);
  }

  lemma OnePiece(m: Msg, client: string, id: string)
    ensures Pieces([m], client, id) == PieceOf(m, client, id)
  {
    assert [m][..0] == [];
  }

  lemma TileResult(q: seq<Msg>, c: Cursors)
    requires q != [] && q[0].TileMsg?
    ensures GetResult(q, c).TileMsg? || GetResult(q, c).TileCombine?
  {
  }

  lemma StepSees(s: State, op: Op, client: string, id: string)
    requires Sees(s.delivered, s.queue, client, id) == Combined(Pieces(s.sent, client, id))
    ensures var s' := Step(s, op); Sees(s'.delivered, s'.queue, client, id) == Combined(Pieces(s'.sent, client, id))
  {
    hide Combined, PutOne, GetQueue, GetResult, Pieces;
    match op {
      case PutOp(m) =>
        if m.TileCombine? {
          PutTilesSees(s.delivered, s.queue, m.tiles, client, id);
          PiecesAppend(s.sent, m, client, id);
          assert Pieces(s.sent, client, id) + [] == Pieces(s.sent, client, id);
        } else {
          PutSees(s.delivered, s.queue, s.sent, m, client, id);
        }
      case GetOp =>
        if s.queue != [] {
          var r := GetResult(s.queue, s.cursors);
          GetPieces(s.queue, s.cursors, client, id);
          PiecesAppend(s.delivered, r, client, id);
          var d, p, w := Pieces(s.delivered, client, id), PieceOf(r, client, id), Pieces(GetQueue(s.queue, s.cursors), client, id);
          assert d + p + w == d + (p + w);
        }
      case _ =>
    }
  }

  /**
   * After any run, for every window of every client: what was delivered and what is queued, with
   * adjacent edits of a kind combined, is what was sent, and so are the keys, mouse and single
   * word messages between the edits.
   */
  lemma {:induction false} EditsPreserved(ops: seq<Op>, client: string, id: string)
    ensures var s := Run(ops); Combined(Pieces(s.delivered + s.queue, client, id)) == Combined(Pieces(s.sent, client, id))
  {
    EditsSeen(ops, client, id);
    PiecesConcat(Run(ops).delivered, Run(ops).queue, client, id);
  }

  lemma {:induction false} EditsSeen(ops: seq<Op>, client: string, id: string)
    ensures var s := Run(ops); Sees(s.delivered, s.queue, client, id) == Combined(Pieces(s.sent, client, id))
  {
    if ops == [] {
      assert Pieces([], client, id) + Pieces([], client, id) == Pieces([], client, id);
    } else {
      hide Combined, Step, Sees;
      EditsSeen(ops[..|ops| - 1], client, id);
      StepSees(Run(ops[..|ops| - 1]), ops[|ops| - 1], client, id);
    }
  }

  // ---- no starving ------------------------------------------------------

  function RunFrom(s: State, ops: seq<Op>): State {
    if ops == [] then s else Step(RunFrom(s, ops[..|ops| - 1]), ops[|ops| - 1])
  }

  /** Only messages from a collection are put. */
  ghost predicate PutsFrom(all: iset<Msg>, ops: seq<Op>) {
    forall i :: 0 <= i < |ops| && ops[i].PutOp? ==> ops[i].msg in all
  }

  function Gets(ops: seq<Op>): nat {
    if ops == [] then 0 else Gets(ops[..|ops| - 1]) + if ops[|ops| - 1].GetOp? then 1 else 0
  }

  /** What becomes of a queued message: still at an index, returned, or combined into or replaced by a newer one. */
  datatype Fate = At(k: nat) | Returned | Superseded

  function DropFate(drop: set<nat>, k: nat, gone: Fate): Fate {
    if k in drop then gone else At(NewIndex(drop, k))
  }

  function TilesFate(q: seq<Msg>, tiles: seq<TileDesc>, f: Fate): Fate {
    if tiles == [] then f
    else match TilesFate(q, tiles[..|tiles| - 1], f)
      case At(k) => DropFate(PutDrop(PutTiles(q, tiles[..|tiles| - 1]), TileMsg(tiles[|tiles| - 1])), k, Superseded)
      case other => other
  }

  function StepFate(s: State, op: Op, f: Fate): Fate {
    if !f.At? then f
    else match op
      case PutOp(m) =>
        if m.TileCombine? then TilesFate(s.queue, m.tiles, f) else DropFate(PutDrop(s.queue, m), f.k, Superseded)
      case GetOp => if s.queue == [] then f else DropFate(GetDrop(s.queue, s.cursors), f.k, Returned)
      case _ => f
  }

  function FateOf(s: State, ops: seq<Op>, k: nat): Fate {
    if ops == [] then At(k)
    else StepFate(RunFrom(s, ops[..|ops| - 1]), ops[|ops| - 1], FateOf(s, ops[..|ops| - 1], k))
  }

  ghost predicate IsAt(q: seq<Msg>, f: Fate, m: Msg, bound: int) {
    f.At? ==> f.k < |q| && q[f.k] == m && f.k <= bound
  }

  lemma PutFate(q: seq<Msg>, new': Msg, k: nat, m: Msg, bound: int)
    requires IsAt(q, At(k), m, bound)
    ensures IsAt(PutOne(q, new'), DropFate(PutDrop(q, new'), k, Superseded), m, bound)
  {
    hide PutDrop, PutNew;
    if k !in PutDrop(q, new') {
      WithoutAt(q, PutDrop(q, new'), k);
    }
  }

  lemma {:induction false} PutTilesFate(q: seq<Msg>, tiles: seq<TileDesc>, f: Fate, m: Msg, bound: int)
    requires IsAt(q, f, m, bound)
    ensures IsAt(PutTiles(q, tiles), TilesFate(q, tiles, f), m, bound)
  {
    if tiles != [] {
      hide PutDrop, PutNew, PutOne, NewIndex;
      var front := tiles[..|tiles| - 1];
      PutTilesFate(q, front, f, m, bound);
      var g := TilesFate(q, front, f);
      if g.At? {
        PutFate(PutTiles(q, front), TileMsg(tiles[|tiles| - 1]), g.k, m, bound);
      }
    }
  }

  lemma StepMoves(s: State, op: Op, f: Fate, m: Msg, bound: int)
    requires !m.TileMsg? && IsAt(s.queue, f, m, bound)
    ensures IsAt(Step(s, op).queue, StepFate(s, op, f), m, bound - if op.GetOp? then 1 else 0)
    ensures f.At? && StepFate(s, op, f).Returned? ==> Step(s, op).delivered == s.delivered + [m]
  {
    hide PutDrop, PutNew, PutOne, GetDrop, GetQueue, GetResult, NewIndex;
    if f.At? {
      match op {
        case PutOp(new') =>
          if new'.TileCombine? {
            PutTilesFate(s.queue, new'.tiles, f, m, bound);
            assert !TilesFate(s.queue, new'.tiles, f).Returned? by { NeverReturned(s.queue, new'.tiles, f); }
          } else {
            PutFate(s.queue, new', f.k, m, bound);
          }
        case GetOp => GetAdvances(s.queue, s.cursors, f.k);
        case _ =>
      }
    }
  }

  lemma {:induction false} NeverReturned(q: seq<Msg>, tiles: seq<TileDesc>, f: Fate)
    requires f.At?
    ensures !TilesFate(q, tiles, f).Returned?
  {
    if tiles != [] {
      hide PutDrop, NewIndex;
      NeverReturned(q, tiles[..|tiles| - 1], f);
    }
  }

  /** A message that is no tile, with k messages ahead of it, has moved up once per get while it is still queued. */
  lemma {:induction false} MovesUp(s: State, ops: seq<Op>, k: nat)
    requires k < |s.queue| && !s.queue[k].TileMsg?
    ensures IsAt(RunFrom(s, ops).queue, FateOf(s, ops, k), s.queue[k], k - Gets(ops))
    decreases |ops|
  {
    hide Step, StepFate, IsAt;
    if ops != [] {
      var front := ops[..|ops| - 1];
      MovesUp(s, front, k);
      StepMoves(RunFrom(s, front), ops[|ops| - 1], FateOf(s, front, k), s.queue[k], k - Gets(front));
    } else {
      StartsAt(s.queue, k);
    }
  }

  lemma StartsAt(q: seq<Msg>, k: nat)
    requires k < |q|
    ensures IsAt(q, At(k), q[k], k)
  {
  }

  /** It is returned by at most the (k+1)-th get, whatever is put between, unless a put combines or replaces it. */
  lemma NoStarving(s: State, ops: seq<Op>, k: nat)
    requires k < |s.queue| && !s.queue[k].TileMsg? && Gets(ops) >= k + 1
    ensures FateOf(s, ops, k).Returned? || FateOf(s, ops, k).Superseded?
  {
    hide FateOf, RunFrom, Gets;
    MovesUp(s, ops, k);
  }

  /** A message that was returned is among the delivered ones. */
  lemma {:induction false} ReturnedIsDelivered(s: State, ops: seq<Op>, k: nat)
    requires k < |s.queue| && !s.queue[k].TileMsg? && FateOf(s, ops, k).Returned?
    ensures s.queue[k] in RunFrom(s, ops).delivered
    decreases |ops|
  {
    hide StepFate, Step, RunFrom, FateOf, IsAt, Gets;
    if ops == [] {
      StartsThere(s, k);
    } else {
      var front, op := ops[..|ops| - 1], ops[|ops| - 1];
      OneMoreStep(s, ops, k);
      var before := RunFrom(s, front);
      if FateOf(s, front, k).Returned? {
        ReturnedIsDelivered(s, front, k);
        KeepsDelivered(before, op);
      } else {
        MovesUp(s, front, k);
        StepMoves(before, op, FateOf(s, front, k), s.queue[k], k - Gets(front));
        StaysSuperseded(before, op);
      }
    }
  }

  lemma StartsThere(s: State, k: nat)
    ensures FateOf(s, [], k) == At(k)
  {
  }

  lemma OneMoreStep(s: State, ops: seq<Op>, k: nat)
    requires ops != []
    ensures var front, op := ops[..|ops| - 1], ops[|ops| - 1];
      RunFrom(s, ops) == Step(RunFrom(s, front), op) && FateOf(s, ops, k) == StepFate(RunFrom(s, front), op, FateOf(s, front, k))
  {
    hide Step, StepFate;
  }

  lemma KeepsDelivered(s: State, op: Op)
    ensures s.delivered <= Step(s, op).delivered
  {
    hide GetQueue, GetResult, Put;
  }

  lemma StaysSuperseded(s: State, op: Op)
    ensures StepFate(s, op, Superseded) == Superseded
  {
  }
}
