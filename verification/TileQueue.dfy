/** The tile queue itself (common/MessageQueue.hpp, common/MessageQueue.cpp), changing its fields in place. */
module TileQueue {
  import opened Wrappers
  import opened Messages
  import opened QueuePut
  import opened QueueGet
  import opened QueueRuns
  import GetLaws

  /** One more message travelled over. */
  lemma WithoutNext(q: seq<Msg>, n: nat, drop: set<nat>, more: set<nat>)
    requires n < |q| && (more == drop || more == drop + {n}) && forall i :: i in drop ==> i < n
    ensures Without(q[..n + 1], more) == Without(q[..n], drop) + if n in more then [] else [q[n]]
  {
    assert q[..n + 1][..n] == q[..n];
    WithoutSame(q[..n], drop, more);
  }

  /** A scan stands between what it has kept and what is still to come: it erases the next element, or steps over it. */
  lemma Scan<T>(kept: seq<T>, rest: seq<T>)
    requires rest != []
    ensures (kept + rest)[|kept|] == rest[0]
    ensures (kept + rest)[..|kept|] + (kept + rest)[|kept| + 1..] == kept + rest[1..]
    ensures kept + rest == kept + [rest[0]] + rest[1..]
  {
    assert rest == [rest[0]] + rest[1..];
  }

  /** The front of a rotated queue goes to its end. */
  lemma Rotated<T>(q: seq<T>, i: nat)
    requires i < |q|
    ensures var s := q[i..] + q[..i]; s[0] == q[i] && s[1..] + [q[i]] == q[i + 1..] + q[..i + 1]
  {
    assert q[i..] == [q[i]] + q[i + 1..] && q[..i + 1] == q[..i] + [q[i]];
  }

  lemma AbsorbNone(q: seq<Msg>, view: string, r: Area)
    requires r.Rect?
    ensures Absorb(q, 0, view, r) == Absorbed({}, r, false) && Without(q[..0], {}) == []
  {
  }

  lemma TargetHasArea(x: Msg, view: string, r: Area)
    requires r.Rect? && SameTarget(x, view, r)
    ensures x.Callback? && x.payload.Invalidate? && Extract(x.payload.area).Some?
  {
  }

  lemma AbsorbNext(q: seq<Msg>, n: nat, view: string, r: Area)
    requires n < |q| && r.Rect?
    ensures var a, b := Absorb(q, n, view, r), Absorb(q, n + 1, view, r);
      && (forall i :: i in a.drop ==> i < n)
      && if !SameTarget(q[n], view, r) then b == a
         else
           var queued := Extract(q[n].payload.area).value;
           if Inside(queued, a.rect) then b == a.(drop := a.drop + {n})
           else if RectanglesIntersect(a.rect, queued) && Reasonable(Around(a.rect, queued)) then
             b == Absorbed(a.drop + {n}, Around(a.rect, queued), true)
           else b == a
  {
  }

  class Queue {
    var queue: seq<Msg>
    var cursorPositions: map<int, Cursor>
    var viewOrder: seq<int>

    constructor ()
      ensures queue == [] && cursorPositions == map[] && viewOrder == []
    {
      queue, cursorPositions, viewOrder := [], map[], [];
    }

    function View(): Cursors
      reads this
    {
      Cursors(cursorPositions, viewOrder)
    }

    /** Looks back for the queued edit to combine with, takes it out and yields the combined message. */
    method CombineEdit(m: Msg) returns (newMsg: Option<Msg>)
      requires IsEdit(m)
      modifies `queue
      ensures newMsg.None? <==> FindEdit(old(queue), m).None?
      ensures queue == Without(old(queue), ToSet(FindEdit(old(queue), m)))
      ensures newMsg.Some? ==> newMsg.value == PutNew(old(queue), m)
    {
      var i := |queue| - 1;
      assert queue[..|queue|] == queue;
      while i >= 0
        invariant -1 <= i < |queue| && queue == old(queue)
        invariant FindEdit(queue, m) == FindEdit(queue[..i + 1], m)
      {
        var x := queue[i];
        assert queue[..i + 1][..i] == queue[..i];
        if Stops(m, x) {
          WithoutNone(queue, {});
          return None;
        }
        if Joins(m, x) {
          newMsg := Some(Joined(x, m));
          WithoutOne(queue, i);
          queue := queue[..i] + queue[i + 1..];
          return;
        }
        i := i - 1;
      }
      WithoutNone(queue, {});
      newMsg := None;
    }

    /** Takes out the first queued message that m makes obsolete. */
    method RemoveDuplicate(m: Msg)
      modifies `queue
      ensures queue == Without(old(queue), ToSet(FindFirst(old(queue), m, 0)))
    {
      var i := 0;
      while i < |queue|
        invariant i <= |queue| && queue == old(queue) && FindFirst(queue, m, 0) == FindFirst(queue, m, i)
      {
        if Replaces(m, queue[i]) {
          WithoutOne(queue, i);
          queue := queue[..i] + queue[i + 1..];
          return;
        }
        i := i + 1;
      }
      WithoutNone(queue, {});
    }

    /** Travels the entire queue, taking out invalidations that the message covers or is joined with. */
    method MergeInvalidations(view: string, r: Area) returns (rect: Area, performedMerge: bool)
      requires r.Rect?
      modifies `queue
      ensures var a := Absorb(old(queue), |old(queue)|, view, r);
        rect == a.rect && performedMerge == a.merged && queue == Without(old(queue), a.drop)
    {
      hide Without, Absorb, SameTarget, Inside, RectanglesIntersect, Reasonable, Extract, Around;
      rect, performedMerge := r, false;
      var i := 0;
      ghost var q, n, a := queue, 0, Absorbed({}, r, false);
      ghost var kept, rest := [], queue;
      AbsorbNone(q, view, r);
      while i < |queue|
        invariant n <= |q| && a == Absorb(q, n, view, r) && kept == Without(q[..n], a.drop) && rest == q[n..]
        invariant queue == kept + rest && i == |kept|
        invariant rect == a.rect && performedMerge == a.merged
        decreases |q| - n
      {
        Scan(kept, rest);
        AbsorbNext(q, n, view, r);
        ghost var after := Absorb(q, n + 1, view, r);
        WithoutNext(q, n, a.drop, after.drop);
        var x := queue[i];
        if !SameTarget(x, view, r) {
          i := i + 1;
          kept := kept + [x];
        } else {
          TargetHasArea(x, view, r);
          var queued := Extract(x.payload.area).value;
          if Inside(queued, rect) {
            queue := queue[..i] + queue[i + 1..];
          } else if RectanglesIntersect(rect, queued) && Reasonable(Around(rect, queued)) {
            rect, performedMerge := Around(rect, queued), true;
            queue := queue[..i] + queue[i + 1..];
          } else {
            i := i + 1;
            kept := kept + [x];
          }
        }
        n, a, rest := n + 1, after, rest[1..];
      }
      assert rest == [] && q[..n] == q;
    }

    /** Queues a message that is not a combined tile request. */
    method PutSingle(m: Msg)
      modifies `queue
      ensures queue == PutOne(old(queue), m)
    {
      hide Without, FindEdit, Absorb, FindFirst;
      if IsEdit(m) {
        var newMsg := CombineEdit(m);
        queue := queue + [if newMsg.Some? then newMsg.value else m];
      } else if m.Callback? && m.payload.Invalidate? && Extract(m.payload.area).Some? {
        var rect, merged := MergeInvalidations(m.view, Extract(m.payload.area).value);
        queue := queue + [if merged then Callback(m.view, Invalidate(rect)) else m];
      } else {
        RemoveDuplicate(m);
        queue := queue + [m];
      }
    }

    method PutMessage(m: Msg)
      modifies `queue
      ensures queue == Put(old(queue), m)
    {
      hide PutOne;
      if m.TileCombine? {
        for i := 0 to |m.tiles|
          invariant queue == PutTiles(old(queue), m.tiles[..i])
        {
          PutSingle(TileMsg(m.tiles[i]));
          assert m.tiles[..i + 1][..i] == m.tiles[..i];
        }
        assert m.tiles[..|m.tiles|] == m.tiles;
      } else {
        PutSingle(m);
      }
    }

    /** The newest view whose cursor the tile touches. */
    method TilePriority(t: TileDesc) returns (p: int)
      ensures p == Priority(t, View())
    {
      p := |viewOrder| - 1;
      while p >= 0
        invariant -1 <= p < |viewOrder| && Priority(t, View()) == PriorityUpTo(t, View(), p + 1)
      {
        if IntersectsWithRect(t, CursorAt(View(), viewOrder[p])) {
          return;
        }
        p := p - 1;
      }
    }

    /** Moves the previews at the front behind everything else. */
    method DeprioritizePreviews()
      modifies `queue
      ensures var n := LeadingPreviews(old(queue)); queue == old(queue)[n..] + old(queue)[..n]
    {
      hide LeadingPreviews;
      ghost var q, n := queue, LeadingPreviews(queue);
      var i := 0;
      while i < |queue|
        invariant |queue| == |q| && i <= n && queue == q[i..] + q[..i]
      {
        Rotated(q, i);
        var front := queue[0];
        if !IsPreview(front) {
          break;
        }
        queue := queue[1..] + [front];
        i := i + 1;
      }
    }
  
    /** Searches the leading tiles for the first one of highest priority. */
    method FindPrioritized() returns (prioritized: nat)
      requires queue != [] && IsPlainTile(queue[0])
      ensures prioritized == Best(queue, View(), LeadingTiles(queue))
    {
      hide Priority, LeadingTiles, Best, PlainTiles;
      var prioritySoFar := -1;
      prioritized := 0;
      var i := 0;
      ghost var n := LeadingTiles(queue);
      ghost var c := View();
      LeadingPlain(queue);
      while i < |queue|
        invariant i <= n <= |queue| && PlainTiles(queue, n)
        invariant FoundSoFar(queue, c, i, n, prioritized, prioritySoFar)
      {
        if !IsPlainTile(queue[i]) {
          break;
        }
        var p := TilePriority(queue[i].desc);
        LookAtNext(queue, c, i, n, prioritized, prioritySoFar);
        if p > prioritySoFar {
          prioritySoFar, prioritized := p, i;
          if prioritySoFar == |viewOrder| - 1 {
            BestIsFinal(queue, c, i + 1, n);
            return;
          }
        }
        i := i + 1;
      }
    }

    /** Takes all tiles out of the queue that can be combined with the first one taken. */
    method CombineTiles(top: TileDesc) returns (tiles: seq<TileDesc>)
      modifies `queue
      ensures var n := |old(queue)|;
        queue == Without(old(queue), CombinableDrop(old(queue), top, n)) && tiles == [top] + Combinable(old(queue), top, n)
    {
      hide Without, CanCombine, Combinable, CombinableDrop;
      tiles := [top];
      var i := 0;
      ghost var q, n, kept, rest := queue, 0, [], queue;
      CombinableNone(q, top);
      while i < |queue|
        invariant n <= |q| && kept == Without(q[..n], CombinableDrop(q, top, n)) && rest == q[n..]
        invariant queue == kept + rest && i == |kept|
        invariant tiles == [top] + Combinable(q, top, n)
        decreases |q| - n
      {
        Scan(kept, rest);
        CombinableNext(q, top, n);
        WithoutNext(q, n, CombinableDrop(q, top, n), CombinableDrop(q, top, n + 1));
        var x := queue[i];
        assert rest[1..] == q[n + 1..];
        if IsPlainTile(x) && CanCombine(top, x.desc) {
          assert [top] + (Combinable(q, top, n) + [x.desc]) == [top] + Combinable(q, top, n) + [x.desc];
          tiles := tiles + [x.desc];
          queue := queue[..i] + queue[i + 1..];
        } else {
          i := i + 1;
          kept := kept + [x];
        }
        n, rest := n + 1, rest[1..];
      }
      assert rest == [] && q[..n] == q;
    }

    /** Takes the next message to handle. */
    method Get() returns (r: Msg)
      requires queue != []
      modifies `queue
      ensures queue == GetQueue(old(queue), old(View())) && r == GetResult(old(queue), old(View()))
      ensures !old(queue)[0].TileMsg? ==> r == old(queue)[0] && queue == old(queue)[1..]
      ensures forall n: nat :: GetLaws.PreviewsLead(old(queue), n) ==>
                r == old(queue)[0] && queue == old(queue)[1 + n..] + old(queue)[1 .. 1 + n]
      ensures forall n: nat, p: nat :: GetLaws.TilesLead(old(queue), old(View()), n, p) ==>
                && queue == Without(old(queue), GetLaws.Taken(old(queue), p))
                && (GetLaws.Taken(old(queue), p) == {p} <==> r == TileMsg(old(queue)[p].desc))
    {
      r := Take();
      GetMeans(old(queue), old(View()));
    }

    method Take() returns (r: Msg)
      requires queue != []
      modifies `queue
      ensures queue == GetQueue(old(queue), old(View())) && r == GetResult(old(queue), old(View()))
    {
      hide Without, Best, Partners, Dedup;
      var front := queue[0];
      ghost var q := queue;
      if !IsPlainTile(front) {
        queue := queue[1..];
        r := front;
        if IsPreview(front) {
          DeprioritizePreviews();
          FrontDropped(q, LeadingPreviews(q[1..]));
        } else {
          WithoutOne(q, 0);
        }
        return;
      }
      var prioritized := FindPrioritized();
      var top := queue[prioritized].desc;
      queue := queue[..prioritized] + queue[prioritized + 1..];
      var tiles := CombineTiles(top);
      CombinedAround(q, prioritized);
      if |tiles| == 1 {
        r := TileMsg(tiles[0]);
      } else {
        tiles := RemoveDuplicateTiles(tiles);
        r := TileCombine(tiles);
      }
    }

    method UpdateCursorPosition(viewId: int, cursor: Cursor)
      modifies this
      ensures queue == old(queue) && View() == UpdateCursor(old(View()), viewId, cursor)
    {
      cursorPositions := cursorPositions[viewId := cursor];
      RemoveView(viewId);
      viewOrder := viewOrder + [viewId];
    }

    method RemoveCursorPosition(viewId: int)
      modifies this
      ensures queue == old(queue) && View() == RemoveCursor(old(View()), viewId)
    {
      RemoveView(viewId);
      cursorPositions := cursorPositions - {viewId};
    }

    /** Takes a view out of the order. */
    method RemoveView(viewId: int)
      modifies `viewOrder
      ensures viewOrder == RemoveValue(old(viewOrder), viewId)
    {
      var i := 0;
      while i < |viewOrder| && viewOrder[i] != viewId
        invariant i <= |viewOrder| && viewOrder == old(viewOrder)
        invariant RemoveValue(viewOrder, viewId) == viewOrder[..i] + RemoveValue(viewOrder[i..], viewId)
      {
        assert viewOrder[i..][1..] == viewOrder[i + 1..];
        i := i + 1;
      }
      if i < |viewOrder| {
        assert viewOrder[i..][1..] == viewOrder[i + 1..];
        viewOrder := viewOrder[..i] + viewOrder[i + 1..];
      }
    }
  }

  /** What a get does, on the fields of the messages. */
  lemma GetMeans(q: seq<Msg>, c: Cursors)
    requires q != []
    ensures !q[0].TileMsg? ==> GetResult(q, c) == q[0] && GetQueue(q, c) == q[1..]
    ensures forall n: nat :: GetLaws.PreviewsLead(q, n) ==> GetResult(q, c) == q[0] && GetQueue(q, c) == q[1 + n..] + q[1 .. 1 + n]
    ensures forall n: nat, p: nat :: GetLaws.TilesLead(q, c, n, p) ==>
              && GetQueue(q, c) == Without(q, GetLaws.Taken(q, p))
              && (GetLaws.Taken(q, p) == {p} <==> GetResult(q, c) == TileMsg(q[p].desc))
  {
    hide GetQueue, GetResult, Without, GetLaws.Taken;
    if !q[0].TileMsg? {
      GetLaws.GetOther(q, c);
    }
    forall n: nat | GetLaws.PreviewsLead(q, n) ensures GetResult(q, c) == q[0] && GetQueue(q, c) == q[1 + n..] + q[1 .. 1 + n] {
      GetLaws.GetPreview(q, c, n);
    }
    forall n: nat, p: nat | GetLaws.TilesLead(q, c, n, p)
      ensures GetQueue(q, c) == Without(q, GetLaws.Taken(q, p)) && (GetLaws.Taken(q, p) == {p} <==> GetResult(q, c) == TileMsg(q[p].desc))
    {
      GetLaws.GetTile(q, c, n, p);
    }
  }

  lemma PriorityBounds(t: TileDesc, c: Cursors)
    ensures -1 <= Priority(t, c) < |c.order| || (c.order == [] && Priority(t, c) == -1)
  {
  }

  /** The search has looked at i tiles of n; nothing has been found before the first. */
  ghost predicate FoundSoFar(q: seq<Msg>, c: Cursors, i: nat, n: nat, p: nat, soFar: int)
    requires i <= n <= |q| && PlainTiles(q, n)
  {
    if i == 0 then p == 0 && soFar == -1
    else SomePlain(q, n, i); p == Best(q, c, i) && soFar == Priority(q[p].desc, c)
  }

  lemma SomePlain(q: seq<Msg>, n: nat, i: nat)
    requires i <= n <= |q| && PlainTiles(q, n)
    ensures PlainTiles(q, i) && (i < n ==> PlainTiles(q, i + 1))
  {
  }

  lemma LookAtNext(q: seq<Msg>, c: Cursors, i: nat, n: nat, p: nat, soFar: int)
    requires i < n <= |q| && PlainTiles(q, n) && FoundSoFar(q, c, i, n, p, soFar)
    ensures IsPlainTile(q[i]) && PlainTiles(q, i + 1)
    ensures var b := Priority(q[i].desc, c);
      if b > soFar then FoundSoFar(q, c, i + 1, n, i, b) else FoundSoFar(q, c, i + 1, n, p, soFar)
  {
    hide PriorityUpTo;
    PriorityBounds(q[i].desc, c);
    SomePlain(q, n, i);
  }

  /** Once the highest priority there can be is found, the search is over. */
  lemma {:induction false} BestIsFinal(q: seq<Msg>, c: Cursors, m: nat, n: nat)
    requires 0 < m <= n <= |q| && PlainTiles(q, n) && PlainTiles(q, m)
    requires Priority(q[Best(q, c, m)].desc, c) == |c.order| - 1
    ensures Best(q, c, n) == Best(q, c, m)
  {
    if m < n {
      hide Priority;
      BestIsFinal(q, c, m, n - 1);
      assert IsPlainTile(q[n - 1]);
      PriorityBounds(q[n - 1].desc, c);
    }
  }

  ghost function CombinableDrop(q: seq<Msg>, top: TileDesc, n: nat): (d: set<nat>)
    requires n <= |q|
    ensures forall j :: j in d ==> j < n
  {
    if n == 0 then {}
    else CombinableDrop(q, top, n - 1) + if IsPlainTile(q[n - 1]) && CanCombine(top, q[n - 1].desc) then {n - 1} else {}
  }

  ghost function Combinable(q: seq<Msg>, top: TileDesc, n: nat): seq<TileDesc>
    requires n <= |q|
  {
    if n == 0 then []
    else Combinable(q, top, n - 1) + if IsPlainTile(q[n - 1]) && CanCombine(top, q[n - 1].desc) then [q[n - 1].desc] else []
  }

  lemma {:induction false} CombinableMembers(q: seq<Msg>, top: TileDesc, n: nat, j: nat)
    requires j < n <= |q|
    ensures j in CombinableDrop(q, top, n) <==> IsPlainTile(q[j]) && CanCombine(top, q[j].desc)
  {
    if j < n - 1 {
      CombinableMembers(q, top, n - 1, j);
    }
  }

  lemma CombinableNone(q: seq<Msg>, top: TileDesc)
    ensures Without(q[..0], CombinableDrop(q, top, 0)) == [] && Combinable(q, top, 0) == []
  {
  }

  lemma CombinableNext(q: seq<Msg>, top: TileDesc, n: nat)
    requires n < |q|
    ensures var takes := IsPlainTile(q[n]) && CanCombine(top, q[n].desc);
      && Combinable(q, top, n + 1) == Combinable(q, top, n) + (if takes then [q[n].desc] else [])
      && CombinableDrop(q, top, n + 1) == CombinableDrop(q, top, n) + (if takes then {n} else {})
      && (n in CombinableDrop(q, top, n + 1) <==> takes)
      && forall i :: i in CombinableDrop(q, top, n) ==> i < n
  {
    hide CanCombine;
  }

  lemma FrontDropped(q: seq<Msg>, n: nat)
    requires 1 + n <= |q|
    ensures Without(q, Below(1 + n)) == q[1..][n..]
  {
    BelowDropped(q, 1 + n);
  }

  /** Taking out the top tile first and its partners then is taking out all of them. */
  lemma CombinedAround(q: seq<Msg>, p: nat)
    requires p < |q| && IsPlainTile(q[p])
    ensures var rest := q[..p] + q[p + 1..]; var top := q[p].desc;
      && Without(rest, CombinableDrop(rest, top, |rest|)) == Without(q, CombineDrop(q, p))
      && Combinable(rest, top, |rest|) == Partners(q, p, |q|)
  {
    hide Without, Combinable, Partners, CombineDrop;
    AroundUpTo(q, p, |q|);
    var rest := q[..p] + q[p + 1..];
    assert q[..|q|] == q && rest[..|rest|] == rest;
  }

  lemma {:induction false} AroundUpTo(q: seq<Msg>, p: nat, n: nat)
    requires p < |q| && IsPlainTile(q[p]) && n <= |q|
    ensures var rest := q[..p] + q[p + 1..]; var top := q[p].desc; var k := if n <= p then n else n - 1;
      && Without(rest[..k], CombinableDrop(rest, top, |rest|)) == Without(q[..n], CombineDrop(q, p))
      && Combinable(rest, top, k) == Partners(q, p, n)
  {
    if n > 0 {
      hide Without, CanCombine, Combinable, Partners, CombineDrop, CombinableDrop;
      AroundUpTo(q, p, n - 1);
      PartnersNext(q, p, n);
      if n - 1 == p {
        WithoutLast(q, n, CombineDrop(q, p));
      } else {
        AroundNext(q, q[..p] + q[p + 1..], p, n, if n <= p then n else n - 1);
      }
    } else {
      NoneAround(q, p);
    }
  }

  /** One more message that is not the top tile itself. */
  lemma AroundNext(q: seq<Msg>, rest: seq<Msg>, p: nat, n: nat, k: nat)
    requires p < |q| && IsPlainTile(q[p]) && 0 < n <= |q| && n - 1 != p && 0 < k <= |rest| && rest[k - 1] == q[n - 1]
    requires Without(rest[..k - 1], CombinableDrop(rest, q[p].desc, |rest|)) == Without(q[..n - 1], CombineDrop(q, p))
    requires Combinable(rest, q[p].desc, k - 1) == Partners(q, p, n - 1)
    ensures Without(rest[..k], CombinableDrop(rest, q[p].desc, |rest|)) == Without(q[..n], CombineDrop(q, p))
    ensures Combinable(rest, q[p].desc, k) == Partners(q, p, n)
  {
    hide Without, CanCombine, Combinable, Partners, CombineDrop, CombinableDrop;
    var top := q[p].desc;
    PartnersNext(q, p, n);
    CombinableMembers(rest, top, |rest|, k - 1);
    CombinableNext(rest, top, k - 1);
    WithoutLast(q, n, CombineDrop(q, p));
    WithoutLast(rest, k, CombinableDrop(rest, top, |rest|));
  }

  lemma NoneAround(q: seq<Msg>, p: nat)
    requires p < |q| && IsPlainTile(q[p])
    ensures Partners(q, p, 0) == [] && Combinable(q[..p] + q[p + 1..], q[p].desc, 0) == []
    ensures forall rest: seq<Msg>, d, e :: Without(rest[..0], d) == Without(q[..0], e)
  {
  }

  lemma WithoutLast(q: seq<Msg>, n: nat, drop: set<nat>)
    requires 0 < n <= |q|
    ensures Without(q[..n], drop) == Without(q[..n - 1], drop) + if n - 1 in drop then [] else [q[n - 1]]
  {
    assert q[..n][..n - 1] == q[..n - 1];
  }

  lemma PartnersNext(q: seq<Msg>, p: nat, n: nat)
    requires p < |q| && IsPlainTile(q[p]) && 0 < n <= |q|
    ensures var takes := IsPlainTile(q[n - 1]) && CanCombine(q[p].desc, q[n - 1].desc);
      && Partners(q, p, n) == Partners(q, p, n - 1) + (if n - 1 != p && takes then [q[n - 1].desc] else [])
      && (n - 1 in CombineDrop(q, p) <==> n - 1 == p || takes)
  {
    hide CanCombine;
  }

  /** Drops every tile behind index i that is at its position. */
  method RemoveSame(all: seq<TileDesc>, i: nat) returns (tiles: seq<TileDesc>)
    requires i < |all|
    ensures tiles == all[..i + 1] + Elsewhere(all[i + 1..], all[i])
  {
    hide SamePosition, Elsewhere;
    tiles := all;
    var j := i + 1;
    ghost var front, kept, rest := all[..i + 1], all[..i + 1], all[i + 1..];
    assert all == front + rest;
    while j < |tiles|
      invariant tiles == kept + rest && j == |kept| && i < |kept| && kept[i] == all[i]
      invariant front + Elsewhere(all[i + 1..], all[i]) == kept + Elsewhere(rest, all[i])
      decreases |rest|
    {
      Scan(kept, rest);
      ElsewhereNext(kept, rest, all[i]);
      if SamePosition(tiles[i], tiles[j]) {
        tiles := tiles[..j] + tiles[j + 1..];
      } else {
        kept := kept + [tiles[j]];
        j := j + 1;
      }
      rest := rest[1..];
    }
    ElsewhereNone(all[i]);
  }

  lemma ElsewhereNone(a: TileDesc)
    ensures Elsewhere([], a) == []
  {
  }

  lemma ElsewhereNext(kept: seq<TileDesc>, rest: seq<TileDesc>, a: TileDesc)
    requires rest != []
    ensures var more := Elsewhere(rest[1..], a);
      kept + Elsewhere(rest, a) == if SamePosition(a, rest[0]) then kept + more else kept + [rest[0]] + more
  {
    hide Elsewhere, SamePosition;
    ElsewhereHead(rest, a);
    var more := Elsewhere(rest[1..], a);
    assert kept + ([rest[0]] + more) == kept + [rest[0]] + more;
  }

  lemma ElsewhereHead(rest: seq<TileDesc>, a: TileDesc)
    requires rest != []
    ensures var more := Elsewhere(rest[1..], a); Elsewhere(rest, a) == if SamePosition(a, rest[0]) then more else [rest[0]] + more
  {
    hide SamePosition;
    assert [] + Elsewhere(rest[1..], a) == Elsewhere(rest[1..], a);
  }

  /** Drops every tile at the position of an earlier one. */
  method RemoveDuplicateTiles(all: seq<TileDesc>) returns (tiles: seq<TileDesc>)
    requires all != []
    ensures tiles == Dedup(all)
  {
    hide Elsewhere, Dedup;
    tiles := all;
    var i := 0;
    ghost var done, rest := [], all;
    while i < |tiles| - 1
      invariant tiles == done + rest && i == |done| && Dedup(all) == done + Dedup(rest)
      decreases |tiles| - i
    {
      ghost var a, behind := rest[0], rest[1..];
      assert tiles[..i + 1] == done + [a] && tiles[i + 1..] == behind;
      DedupNext(done, rest);
      tiles := RemoveSame(tiles, i);
      done, rest := done + [a], Elsewhere(behind, a);
      i := i + 1;
    }
    DedupOne(rest);
  }

  lemma DedupNext(done: seq<TileDesc>, rest: seq<TileDesc>)
    requires rest != []
    ensures done + Dedup(rest) == done + [rest[0]] + Dedup(Elsewhere(rest[1..], rest[0]))
    ensures |Elsewhere(rest[1..], rest[0])| < |rest|
  {
    hide Elsewhere;
    var d := Dedup(Elsewhere(rest[1..], rest[0]));
    assert done + ([rest[0]] + d) == done + [rest[0]] + d;
  }

  lemma DedupOne(ts: seq<TileDesc>)
    requires |ts| <= 1
    ensures Dedup(ts) == ts
  {
  }
}
