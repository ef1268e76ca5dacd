/** What holds of every reachable queue: callbacks that replace each other, and the order of views. */
module QueueInvariants {
  import opened Wrappers
  import opened Messages
  import opened QueuePut
  import opened QueueGet
  import opened QueueRuns

  /** At most one callback and one tile of each class. */
  ghost predicate Unique(q: seq<Msg>) {
    forall i, j :: 0 <= i < j < |q| && ClassOf(q[j]).Some? ==> ClassOf(q[i]) != ClassOf(q[j])
  }

  /** The last message of a class that was sent. */
  function LastSent(sent: seq<Msg>, c: Class): Option<Msg> {
    if sent == [] then None
    else if ClassOf(sent[|sent| - 1]) == Some(c) then Some(sent[|sent| - 1])
    else LastSent(sent[..|sent| - 1], c)
  }

  /** A callback of some class. */
  predicate Classed(m: Msg) { m.Callback? && ClassOf(m).Some? }

  /** A queued callback is the newest of its class. */
  ghost predicate Newest(q: seq<Msg>, sent: seq<Msg>) {
    forall i :: 0 <= i < |q| && Classed(q[i]) ==> LastSent(sent, ClassOf(q[i]).value) == Some(q[i])
  }

  lemma {:induction false} NewIndexMono(drop: set<nat>, a: nat, b: nat)
    requires a <= b
    ensures NewIndex(drop, a) <= NewIndex(drop, b)
  {
    if a < b {
      NewIndexMono(drop, a, b - 1);
    }
  }

  lemma UniqueWithout(q: seq<Msg>, drop: set<nat>)
    requires Unique(q)
    ensures Unique(Without(q, drop))
  {
    hide ClassOf;
    var w := Without(q, drop);
    forall i, j | 0 <= i < j < |w| && ClassOf(w[j]).Some? ensures ClassOf(w[i]) != ClassOf(w[j]) {
      var a := WithoutFrom(q, drop, i);
      var b := WithoutFrom(q, drop, j);
      if b <= a {
        NewIndexMono(drop, b, a);
      }
    }
  }

  lemma NewestWithout(q: seq<Msg>, drop: set<nat>, sent: seq<Msg>)
    requires Newest(q, sent)
    ensures Newest(Without(q, drop), sent)
  {
    hide ClassOf, LastSent;
    var w := Without(q, drop);
    forall i | 0 <= i < |w| && Classed(w[i]) ensures LastSent(sent, ClassOf(w[i]).value) == Some(w[i]) {
      var k := WithoutFrom(q, drop, i);
    }
  }

  /** What is left of the queue has nothing of the class of the incoming message. */
  lemma NoneOfClassLeft(q: seq<Msg>, m: Msg, i: nat)
    requires Unique(q) && ClassOf(m).Some? && i < |Without(q, PutDrop(q, m))|
    ensures ClassOf(Without(q, PutDrop(q, m))[i]) != ClassOf(m)
  {
    hide FindEdit, Absorb, FindFirst;
    var drop := PutDrop(q, m);
    assert drop == ToSet(FindFirst(q, m, 0));
    var k := WithoutFrom(q, drop, i);
    assert Replaces(m, q[k]) <==> ClassOf(q[k]) == ClassOf(m);
  }

  lemma NewClass(q: seq<Msg>, m: Msg)
    ensures ClassOf(m).Some? ==> PutNew(q, m) == m
    ensures ClassOf(PutNew(q, m)) == ClassOf(m)
  {
    hide FindEdit, Absorb;
  }

  lemma PutOneKeeps(q: seq<Msg>, sent: seq<Msg>, m: Msg)
    requires Unique(q) && Newest(q, sent)
    ensures Unique(PutOne(q, m)) && Newest(PutOne(q, m), sent + [m])
  {
    hide PutDrop, PutNew, ClassOf, LastSent;
    var drop := PutDrop(q, m);
    var w := Without(q, drop);
    UniqueWithout(q, drop);
    NewestWithout(q, drop, sent);
    NewClass(q, m);
    forall i | 0 <= i < |w| ensures ClassOf(m).Some? ==> ClassOf(w[i]) != ClassOf(m) {
      if ClassOf(m).Some? {
        NoneOfClassLeft(q, m, i);
      }
    }
    forall i | 0 <= i < |PutOne(q, m)| && Classed(PutOne(q, m)[i])
      ensures LastSent(sent + [m], ClassOf(PutOne(q, m)[i]).value) == Some(PutOne(q, m)[i])
    {
      LastSentMore(sent, m, ClassOf(PutOne(q, m)[i]).value);
    }
  }

  lemma LastSentMore(sent: seq<Msg>, m: Msg, c: Class)
    ensures LastSent(sent + [m], c) == if ClassOf(m) == Some(c) then Some(m) else LastSent(sent, c)
  {
    assert (sent + [m])[..|sent|] == sent;
  }

  lemma {:induction false} PutTilesKeeps(q: seq<Msg>, sent: seq<Msg>, tiles: seq<TileDesc>)
    requires Unique(q) && Newest(q, sent)
    ensures Unique(PutTiles(q, tiles)) && Newest(PutTiles(q, tiles), sent)
  {
    if tiles != [] {
      hide PutOne, Unique, LastSent;
      var before, m := PutTiles(q, tiles[..|tiles| - 1]), TileMsg(tiles[|tiles| - 1]);
      PutTilesKeeps(q, sent, tiles[..|tiles| - 1]);
      PutOneKeeps(before, sent, m);
      var after := PutOne(before, m);
      forall i | 0 <= i < |after| && Classed(after[i]) ensures LastSent(sent, ClassOf(after[i]).value) == Some(after[i]) {
        LastSentMore(sent, m, ClassOf(after[i]).value);
      }
    }
  }

  /** What is moved to the end has left its place, so it is no other message that is left. */
  lemma MovedApart(q: seq<Msg>, c: Cursors, i: nat, j: nat)
    requires q != [] && Unique(q) && i < |Without(q, GetDrop(q, c))| && j < |GetMoved(q)| && ClassOf(GetMoved(q)[j]).Some?
    ensures ClassOf(Without(q, GetDrop(q, c))[i]) != ClassOf(GetMoved(q)[j])
  {
    hide ClassOf;
    var k := WithoutFrom(q, GetDrop(q, c), i);
    var at := 1 + j;
    assert IsPreview(q[0]) && GetMoved(q)[j] == q[at] && at in GetDrop(q, c);
    assert k != at && (k < at || at < k);
  }

  lemma GetKeeps(q: seq<Msg>, sent: seq<Msg>, c: Cursors)
    requires q != [] && Unique(q) && Newest(q, sent)
    ensures Unique(GetQueue(q, c)) && Newest(GetQueue(q, c), sent)
  {
    hide GetDrop, LastSent, ClassOf;
    UniqueWithout(q, GetDrop(q, c));
    NewestWithout(q, GetDrop(q, c), sent);
    var w, moved := Without(q, GetDrop(q, c)), GetMoved(q);
    forall i, j | 0 <= i < |w| && 0 <= j < |moved| && ClassOf(moved[j]).Some? ensures ClassOf(w[i]) != ClassOf(moved[j]) {
      MovedApart(q, c, i, j);
    }
    assert forall i :: 0 <= i < |moved| ==> IsPreview(moved[i]) && !Classed(moved[i]);
  }

  /** The view order lists the views that have a cursor, each once. */
  ghost predicate OrderListsViews(c: Cursors) {
    && (forall i, j :: 0 <= i < j < |c.order| ==> c.order[i] != c.order[j])
    && forall v :: v in c.order <==> v in c.positions
  }

  lemma {:induction false} RemovedValue(order: seq<int>, view: int)
    requires forall i, j :: 0 <= i < j < |order| ==> order[i] != order[j]
    ensures var r := RemoveValue(order, view);
      && (forall i, j :: 0 <= i < j < |r| ==> r[i] != r[j])
      && forall v :: v in r <==> v in order && v != view
  {
    if order != [] {
      var rest := order[1..];
      assert forall i :: 0 <= i < |rest| ==> rest[i] == order[i + 1];
      assert order == [order[0]] + rest && order[0] !in rest;
      RemovedValue(rest, view);
      assert order[0] !in RemoveValue(rest, view);
    }
  }

  ghost predicate Inv(s: State) {
    Unique(s.queue) && Newest(s.queue, s.sent) && OrderListsViews(s.cursors)
  }

  lemma StepKeepsInv(s: State, op: Op)
    requires Inv(s)
    ensures Inv(Step(s, op))
  {
    hide Unique, Newest, PutOne, GetQueue;
    match op {
      case PutOp(m) =>
        if m.TileCombine? {
          PutTilesKeeps(s.queue, s.sent, m.tiles);
          SentMore(PutTiles(s.queue, m.tiles), s.sent, m);
        } else {
          PutOneKeeps(s.queue, s.sent, m);
        }
      case GetOp =>
        if s.queue != [] {
          GetKeeps(s.queue, s.sent, s.cursors);
        }
      case CursorOp(view, cursor) => CursorKeeps(s.cursors, view, cursor);
      case NoCursorOp(view) => RemovedValue(s.cursors.order, view);
    }
  }

  lemma CursorKeeps(c: Cursors, view: int, cursor: Cursor)
    requires OrderListsViews(c)
    ensures OrderListsViews(UpdateCursor(c, view, cursor))
  {
    RemovedValue(c.order, view);
    var r := RemoveValue(c.order, view);
    assert forall i :: 0 <= i < |r| ==> r[i] in r;
  }

  lemma SentMore(q: seq<Msg>, sent: seq<Msg>, m: Msg)
    requires Newest(q, sent) && m.TileCombine?
    ensures Newest(q, sent + [m])
  {
    hide LastSent;
    forall i | 0 <= i < |q| && Classed(q[i]) ensures LastSent(sent + [m], ClassOf(q[i]).value) == Some(q[i]) {
      LastSentMore(sent, m, ClassOf(q[i]).value);
    }
  }

  /**
   * In every reachable queue there is at most one callback of each class and one request for each
   * tile, the callbacks are the newest that were sent, and the view order is a listing without duplicates of the views with a cursor.
   */
  lemma {:induction false} RunKeepsInv(ops: seq<Op>)
    ensures Inv(Run(ops))
  {
    if ops != [] {
      hide Step, Inv;
      RunKeepsInv(ops[..|ops| - 1]);
      StepKeepsInv(Run(ops[..|ops| - 1]), ops[|ops| - 1]);
    }
  }

  // ---- the same, on the fields of messages ------------------------------

  /** A newer callback makes an older one obsolete: same view, and same uno command, kind of cursor, or kind and view of a view's cursor. */
  predicate Obsoletes(a: Msg, b: Msg) {
    a.Callback? && b.Callback? && a.view == b.view && match (a.payload, b.payload)
      case (StateChanged(c, _), StateChanged(d, _)) => c == d && c != "" && c != ".uno:ModifiedStatus"
      case (CursorClass(k, _), CursorClass(l, _)) => k == l
      case (ViewCursor(k, v, _), ViewCursor(l, w, _)) => k == l && v == w
      case _ => false
  }

  /** Two requests for the same tile, in whatever version and mode, and with whatever preview id. */
  predicate SamePlace(a: Msg, b: Msg) {
    && a.TileMsg? && b.TileMsg?
    && a.desc.nviewid == b.desc.nviewid && a.desc.part == b.desc.part
    && a.desc.width == b.desc.width && a.desc.height == b.desc.height
    && a.desc.posX == b.desc.posX && a.desc.posY == b.desc.posY
    && a.desc.tileWidth == b.desc.tileWidth && a.desc.tileHeight == b.desc.tileHeight
    && a.desc.oldwid == b.desc.oldwid && a.desc.wid == b.desc.wid
  }

  predicate Supersedes(a: Msg, b: Msg) { Obsoletes(a, b) || SamePlace(a, b) }

  lemma SupersedesIsClass(a: Msg, b: Msg)
    ensures Supersedes(a, b) <==> ClassOf(a).Some? && ClassOf(a) == ClassOf(b)
  {
    if a.TileMsg? && b.TileMsg? {
      var x, y := TileKey(a.desc), TileKey(b.desc);
      assert SamePlace(a, b) ==> x == y;
      assert x == y ==> SamePlace(a, b) by {
        assert x.nviewid == a.desc.nviewid && x.part == a.desc.part && x.width == a.desc.width && x.height == a.desc.height;
        assert x.posX == a.desc.posX && x.posY == a.desc.posY && x.oldwid == a.desc.oldwid && x.wid == a.desc.wid;
      }
    }
  }

  /**
   * In every reachable queue no message is made obsolete by another one, and every callback that
   * could be is the last of its like that was sent.
   */
  lemma RunKeepsNewest(ops: seq<Op>)
    ensures var s := Run(ops);
      && (forall i, j :: 0 <= i < |s.queue| && 0 <= j < |s.queue| && i != j ==> !Supersedes(s.queue[i], s.queue[j]))
      && (forall i :: 0 <= i < |s.queue| && Obsoletes(s.queue[i], s.queue[i]) ==> IsLastOf(s.sent, s.queue[i]))
  {
    hide ClassOf, Supersedes, Obsoletes;
    var s := Run(ops);
    RunKeepsInv(ops);
    forall i, j | 0 <= i < |s.queue| && 0 <= j < |s.queue| && i != j ensures !Supersedes(s.queue[i], s.queue[j]) {
      SupersedesIsClass(s.queue[i], s.queue[j]);
      assert if i < j then ClassOf(s.queue[j]).Some? ==> ClassOf(s.queue[i]) != ClassOf(s.queue[j])
             else ClassOf(s.queue[i]).Some? ==> ClassOf(s.queue[j]) != ClassOf(s.queue[i]);
    }
    forall i | 0 <= i < |s.queue| && Obsoletes(s.queue[i], s.queue[i]) ensures IsLastOf(s.sent, s.queue[i]) {
      CallbackClass(s.queue[i]);
      LastIsLast(s.sent, s.queue[i]);
    }
  }

  lemma CallbackClass(m: Msg)
    requires Obsoletes(m, m)
    ensures Classed(m)
  {
  }

  ghost predicate IsLastOf(sent: seq<Msg>, m: Msg) {
    exists k :: 0 <= k < |sent| && sent[k] == m && forall l :: k < l < |sent| ==> !Obsoletes(sent[l], m)
  }

  lemma {:induction false} LastIsLast(sent: seq<Msg>, m: Msg)
    requires Classed(m) && LastSent(sent, ClassOf(m).value) == Some(m)
    ensures IsLastOf(sent, m)
  {
    hide ClassOf, Obsoletes;
    var n := |sent| - 1;
    if ClassOf(sent[n]) == ClassOf(m) {
      assert sent[n] == m;
    } else {
      LastIsLast(sent[..n], m);
      var k :| 0 <= k < n && sent[..n][k] == m && forall l :: k < l < n ==> !Obsoletes(sent[..n][l], m);
      SupersedesIsClass(sent[n], m);
      forall l | k < l < |sent| ensures !Obsoletes(sent[l], m) {
        if l < n {
          assert sent[..n][l] == sent[l];
        }
      }
    }
  }

  /** What a put does that is neither an edit nor an invalidation nor many tiles: the first message it makes obsolete goes, and it comes last. */
  lemma PutSupersedes(q: seq<Msg>, m: Msg)
    requires !IsEdit(m) && !m.TileCombine? && !(m.Callback? && m.payload.Invalidate?)
    ensures (forall i :: 0 <= i < |q| ==> !Supersedes(m, q[i])) ==> Put(q, m) == q + [m]
    ensures forall i :: 0 <= i < |q| && Supersedes(m, q[i]) && (forall j :: 0 <= j < i ==> !Supersedes(m, q[j])) ==>
              Put(q, m) == q[..i] + q[i + 1..] + [m]
  {
    hide ClassOf, FindFirst, Without, Supersedes, Replaces;
    forall i | 0 <= i < |q| ensures Replaces(m, q[i]) <==> Supersedes(m, q[i]) {
      ReplacesIs(m, q[i]);
    }
    var first := FindFirst(q, m, 0);
    if first.Some? {
      WithoutOne(q, first.value);
    } else {
      WithoutNone(q, {});
    }
    assert Put(q, m) == Without(q, ToSet(first)) + [m] by { PutFirst(q, m); }
  }

  lemma ReplacesIs(m: Msg, x: Msg)
    ensures Replaces(m, x) <==> Supersedes(m, x)
  {
    hide ClassOf;
    SupersedesIsClass(m, x);
  }

  lemma PutFirst(q: seq<Msg>, m: Msg)
    requires !IsEdit(m) && !m.TileCombine? && !(m.Callback? && m.payload.Invalidate?)
    ensures Put(q, m) == Without(q, ToSet(FindFirst(q, m, 0))) + [m]
  {
    hide FindFirst, Without;
  }

  /** Callbacks without a uno command, of the modified status, of no known kind, and invalidations that do not parse drop nothing. */
  lemma PutKeepsAll(q: seq<Msg>, m: Msg)
    requires m.Callback?
    requires
      || (m.payload.StateChanged? && (m.payload.command == "" || m.payload.command == ".uno:ModifiedStatus"))
      || m.payload.OtherCallback? || (m.payload.Invalidate? && m.payload.area.NoArea?)
    ensures Put(q, m) == q + [m]
  {
    if m.payload.Invalidate? {
      WithoutNone(q, {});
    } else {
      PutSupersedes(q, m);
    }
  }
}
