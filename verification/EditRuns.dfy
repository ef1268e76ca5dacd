/** Edits are combined wherever they may be: in every reachable queue something stands between any two that are alike. */
module EditRuns {
  import opened Wrappers
  import opened Messages
  import opened QueuePut
  import opened QueueGet
  import opened QueueRuns
  import QueueInvariants

  /** Two edits of the same kind, client and window. */
  predicate Alike(a: Msg, b: Msg) {
    && a.Client? && b.Client? && a.client == b.client
    && (|| (a.command.TextInput? && b.command.TextInput? && a.command.id == b.command.id)
        || (a.command.RemoveText? && b.command.RemoveText? && a.command.id == b.command.id))
  }

  /** What an edit cannot be moved across: a single word, a key, mouse or window key of the client, or its edits of the other kind. */
  predicate Separates(x: Msg, edit: Msg) {
    || x.OneToken?
    || (x.Client? && edit.Client? && x.client == edit.client
        && (|| x.command.Key? || x.command.Mouse? || x.command.WindowKey?
            || (edit.command.TextInput? && (x.command.RemoveText? || x.command.BadRemoveText?))
            || (edit.command.RemoveText? && (x.command.TextInput? || x.command.BadTextInput?))))
  }

  ghost predicate Between(q: seq<Msg>, a: nat, b: nat)
    requires b < |q|
  {
    exists k :: a < k < b && Separates(q[k], q[b])
  }

  /** Between any two edits that are alike there is something that keeps them apart. */
  ghost predicate EditsApart(q: seq<Msg>) {
    forall a: nat, b: nat :: a < b < |q| && Alike(q[a], q[b]) ==> Between(q, a, b)
  }

  lemma JoinsIsAlike(m: Msg, x: Msg)
    requires IsEdit(m)
    ensures Joins(m, x) <==> Alike(x, m)
  {
  }

  lemma StopsIsSeparates(m: Msg, x: Msg)
    requires IsEdit(m)
    ensures Stops(m, x) <==> Separates(x, m)
  {
  }

  lemma AlikeSeparates(a: Msg, b: Msg, x: Msg)
    requires Alike(a, b)
    ensures Separates(x, a) <==> Separates(x, b)
    ensures !Separates(a, b) && IsEdit(a) && IsEdit(b)
  {
  }

  // ---- dropping messages ------------------------------------------------

  lemma NewIndexStrict(drop: set<nat>, a: nat, b: nat)
    requires a < b && a !in drop
    ensures NewIndex(drop, a) < NewIndex(drop, b)
  {
    QueueInvariants.NewIndexMono(drop, a + 1, b);
  }

  /** If none of the dropped messages was needed between two that stay, the rest is still apart. */
  lemma WithoutApart(q: seq<Msg>, drop: set<nat>)
    requires forall a: nat, b: nat :: a < b < |q| && a !in drop && b !in drop && Alike(q[a], q[b]) ==>
      exists k :: a < k < b && k !in drop && Separates(q[k], q[b])
    ensures EditsApart(Without(q, drop))
  {
    hide Alike, Separates, NewIndex, Without;
    var w := Without(q, drop);
    forall i: nat, j: nat | i < j < |w| && Alike(w[i], w[j]) ensures Between(w, i, j) {
      var a := WithoutFrom(q, drop, i);
      var b := WithoutFrom(q, drop, j);
      if b <= a {
        QueueInvariants.NewIndexMono(drop, b, a);
      }
      var k :| a < k < b && k !in drop && Separates(q[k], q[b]);
      WithoutAt(q, drop, k);
      NewIndexStrict(drop, a, k);
      NewIndexStrict(drop, k, b);
      assert Separates(w[NewIndex(drop, k)], w[j]);
    }
  }

  /** Messages that are neither a client's nor a single word can go. */
  lemma OthersGo(q: seq<Msg>, drop: set<nat>)
    requires EditsApart(q) && forall i :: i in drop && i < |q| ==> !q[i].Client? && !q[i].OneToken?
    ensures EditsApart(Without(q, drop))
  {
    forall a: nat, b: nat | a < b < |q| && a !in drop && b !in drop && Alike(q[a], q[b])
      ensures exists k :: a < k < b && k !in drop && Separates(q[k], q[b])
    {
      assert Between(q, a, b);
      var k :| a < k < b && Separates(q[k], q[b]);
      assert k !in drop;
    }
    WithoutApart(q, drop);
  }

  lemma AppendApart(q: seq<Msg>, m: Msg)
    requires EditsApart(q) && forall a: nat :: a < |q| && Alike(q[a], m) ==> exists k :: a < k < |q| && Separates(q[k], m)
    ensures EditsApart(q + [m])
  {
    hide Alike, Separates;
    var w := q + [m];
    forall a: nat, b: nat | a < b < |w| && Alike(w[a], w[b]) ensures Between(w, a, b) {
      if b < |q| {
        assert Between(q, a, b);
        var k :| a < k < b && Separates(q[k], q[b]);
        assert Separates(w[k], w[b]);
      } else {
        var k :| a < k < |q| && Separates(q[k], m);
        assert Separates(w[k], w[b]);
      }
    }
  }

  // ---- puts -------------------------------------------------------------

  /** An edit that finds none to be combined with. */
  lemma LoneEdit(q: seq<Msg>, m: Msg)
    requires EditsApart(q) && IsEdit(m) && FindEdit(q, m).None?
    ensures EditsApart(PutOne(q, m))
  {
    hide FindEdit, Joins, Stops, Alike, Separates;
    WithoutNone(q, {});
    forall a: nat | a < |q| && Alike(q[a], m) ensures exists k :: a < k < |q| && Separates(q[k], m) {
      JoinsIsAlike(m, q[a]);
      var j :| a <= j < |q| && Stops(m, q[j]);
      StopsIsSeparates(m, q[j]);
      AlikeSeparates(q[a], m, q[j]);
    }
    AppendApart(q, m);
  }

  /** The edit that is combined was not needed between two others. */
  lemma DroppedNotNeeded(q: seq<Msg>, m: Msg, i: nat, a: nat, b: nat)
    requires EditsApart(q) && IsEdit(m) && FindEdit(q, m) == Some(i) && a < b < |q| && a != i && b != i && Alike(q[a], q[b])
    ensures exists k :: a < k < b && k != i && Separates(q[k], q[b])
  {
    hide FindEdit, Joins, Stops;
    assert Between(q, a, b);
    var k :| a < k < b && Separates(q[k], q[b]);
    if k == i {
      JoinsIsAlike(m, q[i]);
      StopsIsSeparates(m, q[b]);
      assert false;
    }
  }

  lemma CombinedEdit(q: seq<Msg>, m: Msg, i: nat)
    requires EditsApart(q) && IsEdit(m) && FindEdit(q, m) == Some(i)
    ensures EditsApart(PutOne(q, m))
  {
    hide FindEdit, Joins, Stops, Separates, Joined;
    forall a: nat, b: nat | a < b < |q| && a !in {i} && b !in {i} && Alike(q[a], q[b])
      ensures exists k :: a < k < b && k !in {i} && Separates(q[k], q[b])
    {
      DroppedNotNeeded(q, m, i, a, b);
    }
    WithoutApart(q, {i});
    var w, new' := Without(q, {i}), Joined(q[i], m);
    forall a: nat | a < |w| && Alike(w[a], new') ensures exists k :: a < k < |w| && Separates(w[k], new') {
      BehindIsApart(q, m, i, a);
    }
    AppendApart(w, new');
    assert PutOne(q, m) == w + [new'];
  }

  /** An edit that is like the combined one stood apart from the one that was taken out. */
  lemma BehindIsApart(q: seq<Msg>, m: Msg, i: nat, a: nat)
    requires EditsApart(q) && IsEdit(m) && FindEdit(q, m) == Some(i)
    requires var w := Without(q, {i}); a < |w| && Alike(w[a], Joined(q[i], m))
    ensures var w := Without(q, {i}); exists k :: a < k < |w| && Separates(w[k], Joined(q[i], m))
  {
    hide FindEdit, Stops, NewIndex, Without;
    var w := Without(q, {i});
    var c := WithoutFrom(q, {i}, a);
    assert Alike(q[c], q[i]) && Joins(m, q[c]);
    assert c < i;
    assert Between(q, c, i);
    var k :| c < k < i && Separates(q[k], q[i]);
    WithoutAt(q, {i}, k);
    NewIndexStrict({i}, c, k);
    assert Separates(w[NewIndex({i}, k)], Joined(q[i], m));
  }

  /** Any other message. */
  lemma OtherPut(q: seq<Msg>, m: Msg)
    requires EditsApart(q) && !IsEdit(m)
    ensures EditsApart(PutOne(q, m))
  {
    var drop := PutDrop(q, m);
    forall i | i in drop && i < |q| ensures !q[i].Client? && !q[i].OneToken? {
      OtherDrops(q, m, i);
    }
    hide PutDrop, PutNew, EditsApart;
    OthersGo(q, drop);
    OtherNew(q, m);
    NoneAlike(Without(q, drop), PutNew(q, m));
  }

  lemma OtherDrops(q: seq<Msg>, m: Msg, i: nat)
    requires !IsEdit(m) && i in PutDrop(q, m) && i < |q|
    ensures !q[i].Client? && !q[i].OneToken?
  {
    hide FindFirst, Absorb;
  }

  lemma OtherNew(q: seq<Msg>, m: Msg)
    requires !IsEdit(m)
    ensures !IsEdit(PutNew(q, m))
  {
    hide FindFirst, Absorb;
  }

  lemma NoneAlike(q: seq<Msg>, m: Msg)
    requires EditsApart(q) && !IsEdit(m)
    ensures EditsApart(q + [m])
  {
    AppendApart(q, m);
  }

  lemma PutOneApart(q: seq<Msg>, m: Msg)
    requires EditsApart(q)
    ensures EditsApart(PutOne(q, m))
  {
    hide EditsApart, PutOne, FindEdit;
    if !IsEdit(m) {
      OtherPut(q, m);
    } else if FindEdit(q, m).None? {
      LoneEdit(q, m);
    } else {
      CombinedEdit(q, m, FindEdit(q, m).value);
    }
  }

  lemma {:induction false} PutTilesApart(q: seq<Msg>, tiles: seq<TileDesc>)
    requires EditsApart(q)
    ensures EditsApart(PutTiles(q, tiles))
  {
    if tiles != [] {
      hide EditsApart, PutOne;
      PutTilesApart(q, tiles[..|tiles| - 1]);
      PutOneApart(PutTiles(q, tiles[..|tiles| - 1]), TileMsg(tiles[|tiles| - 1]));
    }
  }

  // ---- gets -------------------------------------------------------------

  lemma FrontGoes(q: seq<Msg>)
    requires EditsApart(q) && q != []
    ensures EditsApart(q[1..])
  {
    WithoutOne(q, 0);
    forall a: nat, b: nat | a < b < |q| && a !in {0} && b !in {0} && Alike(q[a], q[b])
      ensures exists k :: a < k < b && k !in {0} && Separates(q[k], q[b])
    {
      assert Between(q, a, b);
    }
    WithoutApart(q, {0});
  }

  lemma {:induction false} TilesAppended(q: seq<Msg>, tiles: seq<Msg>)
    requires EditsApart(q) && forall i :: 0 <= i < |tiles| ==> tiles[i].TileMsg?
    ensures EditsApart(q + tiles)
    decreases |tiles|
  {
    hide EditsApart;
    if tiles == [] {
      assert q + tiles == q;
    } else {
      var n := |tiles| - 1;
      TilesAppended(q, tiles[..n]);
      NoneAlike(q + tiles[..n], tiles[n]);
      assert q + tiles[..n] + [tiles[n]] == q + tiles;
    }
  }

  lemma GetApart(q: seq<Msg>, c: Cursors)
    requires EditsApart(q) && q != []
    ensures EditsApart(GetQueue(q, c))
  {
    hide EditsApart, GetDrop, GetResult;
    WhoLeaves(q, c);
    if q[0].TileMsg? {
      OthersGo(q, GetDrop(q, c));
      TilesAppended(Without(q, GetDrop(q, c)), GetMoved(q));
    } else {
      GetFirst(q, c);
      FrontGoes(q);
    }
  }

  // ---- runs -------------------------------------------------------------

  lemma StepApart(s: State, op: Op)
    requires EditsApart(s.queue)
    ensures EditsApart(Step(s, op).queue)
  {
    hide EditsApart, PutOne, GetQueue, GetResult;
    match op {
      case PutOp(m) =>
        if m.TileCombine? {
          PutTilesApart(s.queue, m.tiles);
        } else {
          PutOneApart(s.queue, m);
        }
      case GetOp =>
        if s.queue != [] {
          GetApart(s.queue, s.cursors);
        }
      case _ =>
    }
  }

  /**
   * In every reachable queue, two edits of the same kind, client and window have between them a
   * single word, a key, mouse or window key message of that client, or an edit of it of the other kind.
   */
  lemma {:induction false} RunCombines(ops: seq<Op>)
    ensures EditsApart(Run(ops).queue)
  {
    if ops != [] {
      hide Step, EditsApart;
      RunCombines(ops[..|ops| - 1]);
      StepApart(Run(ops[..|ops| - 1]), ops[|ops| - 1]);
    }
  }
}
