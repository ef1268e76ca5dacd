/** What taking a message does to the queue: which messages leave it, and what is returned. */
module QueueGet {
  import opened Pixels
  import opened Messages

  datatype Cursor = Cursor(part: int, x: int, y: int, w: int, h: int)

  datatype Cursors = Cursors(positions: map<int, Cursor>, order: seq<int>)

  function CursorAt(c: Cursors, view: int): Cursor {
    if view in c.positions then c.positions[view] else Cursor(0, 0, 0, 0, 0)
  }

  predicate IntersectsWithRect(t: TileDesc, c: Cursor) {
    && t.posX + t.tileWidth >= c.x && t.posX <= c.x + c.w
    && t.posY + t.tileHeight >= c.y && t.posY <= c.y + c.h
  }

  /** The index of the newest view whose cursor the tile touches, among the n oldest; -1 if there is none. */
  function PriorityUpTo(t: TileDesc, c: Cursors, n: nat): (p: int)
    requires n <= |c.order|
    ensures -1 <= p < n
    ensures p >= 0 ==> IntersectsWithRect(t, CursorAt(c, c.order[p]))
    ensures forall i :: p < i < n ==> !IntersectsWithRect(t, CursorAt(c, c.order[i]))
  {
    if n == 0 then -1
    else if IntersectsWithRect(t, CursorAt(c, c.order[n - 1])) then n - 1
    else PriorityUpTo(t, c, n - 1)
  }

  function Priority(t: TileDesc, c: Cursors): int { PriorityUpTo(t, c, |c.order|) }

  /** Tiles without preview id at the front of the queue. */
  function LeadingTiles(q: seq<Msg>): (n: nat)
    ensures n <= |q| && (forall i :: 0 <= i < n ==> IsPlainTile(q[i])) && (n < |q| ==> !IsPlainTile(q[n]))
  {
    if q == [] || !IsPlainTile(q[0]) then 0 else 1 + LeadingTiles(q[1..])
  }

  function LeadingPreviews(q: seq<Msg>): (n: nat)
    ensures n <= |q| && (forall i :: 0 <= i < n ==> IsPreview(q[i])) && (n < |q| ==> !IsPreview(q[n]))
  {
    if q == [] || !IsPreview(q[0]) then 0 else 1 + LeadingPreviews(q[1..])
  }

  ghost predicate PlainTiles(q: seq<Msg>, n: nat)
    requires n <= |q|
  {
    forall i :: 0 <= i < n ==> IsPlainTile(q[i])
  }

  lemma LeadingPlain(q: seq<Msg>)
    ensures PlainTiles(q, LeadingTiles(q))
  {
  }

  /** The first tile of highest priority among the n > 0 first messages. */
  function Best(q: seq<Msg>, c: Cursors, n: nat): (p: nat)
    requires 0 < n <= |q| && PlainTiles(q, n)
    ensures p < n && IsPlainTile(q[p])
  {
    if n == 1 then 0
    else
      var b := Best(q, c, n - 1);
      assert IsPlainTile(q[n - 1]);
      if Priority(q[n - 1].desc, c) > Priority(q[b].desc, c) then n - 1 else b
  }

  lemma {:induction false} BestIsFirst(q: seq<Msg>, c: Cursors, n: nat)
    requires 0 < n <= |q| && PlainTiles(q, n)
    ensures FirstHighest(q, c, n, Best(q, c, n))
  {
    hide PriorityUpTo;
    if n > 1 {
      BestIsFirst(q, c, n - 1);
      assert IsPlainTile(q[n - 1]);
    }
  }

  /** The tile at p has the highest priority of the n first, and none before it has the same. */
  ghost predicate FirstHighest(q: seq<Msg>, c: Cursors, n: nat, p: nat)
    requires n <= |q|
  {
    && p < n && IsPlainTile(q[p])
    && (forall i :: 0 <= i < n ==> IsPlainTile(q[i]) && Priority(q[i].desc, c) <= Priority(q[p].desc, c))
    && (forall i :: 0 <= i < p ==> IsPlainTile(q[i]) && Priority(q[i].desc, c) < Priority(q[p].desc, c))
  }

  predicate SameParams(a: TileDesc, b: TileDesc) {
    && a.part == b.part && a.mode == b.mode && a.width == b.width && a.height == b.height
    && a.tileWidth == b.tileWidth && a.tileHeight == b.tileHeight && a.nviewid == b.nviewid
  }

  /** On the same row and at most 16 tiles apart. */
  predicate CanCombine(a: TileDesc, b: TileDesc) {
    && SameParams(a, b)
    && b.posY + b.tileHeight >= a.posY && b.posY <= a.posY + a.tileHeight
    && -16 <= a.posX / a.tileWidth - b.posX / b.tileWidth <= 16
  }

  /** The tile at p and all that can be combined with it, anywhere in the queue. */
  function CombineDrop(q: seq<Msg>, p: nat): (d: set<nat>)
    requires p < |q| && IsPlainTile(q[p])
  {
    set j: nat | j < |q| && (j == p || (IsPlainTile(q[j]) && CanCombine(q[p].desc, q[j].desc)))
  }

  /** The tiles that are combined with the one at p, among the n first messages, in order. */
  function Partners(q: seq<Msg>, p: nat, n: nat): (ts: seq<TileDesc>)
    requires p < |q| && IsPlainTile(q[p]) && n <= |q|
    ensures forall i :: 0 <= i < |ts| ==> CanCombine(q[p].desc, ts[i])
  {
    if n == 0 then []
    else
      var x := q[n - 1];
      Partners(q, p, n - 1) + if n - 1 != p && IsPlainTile(x) && CanCombine(q[p].desc, x.desc) then [x.desc] else []
  }

  predicate SamePosition(a: TileDesc, b: TileDesc) { a.posX == b.posX && a.posY == b.posY }

  function Elsewhere(ts: seq<TileDesc>, a: TileDesc): (r: seq<TileDesc>)
    ensures |r| <= |ts|
  {
    if ts == [] then []
    else (if SamePosition(a, ts[0]) then [] else [ts[0]]) + Elsewhere(ts[1..], a)
  }

  lemma {:induction false} ElsewhereMembers(ts: seq<TileDesc>, a: TileDesc)
    ensures var r := Elsewhere(ts, a);
      && (forall t :: t in r ==> !SamePosition(a, t) && t in ts)
      && (forall t :: t in ts && !SamePosition(a, t) ==> t in r)
  {
    if ts != [] {
      ElsewhereMembers(ts[1..], a);
      assert ts == [ts[0]] + ts[1..];
    }
  }

  /** The first tile of every position. */
  function Dedup(ts: seq<TileDesc>): (r: seq<TileDesc>)
    decreases |ts|
  {
    if ts == [] then [] else [ts[0]] + Dedup(Elsewhere(ts[1..], ts[0]))
  }

  // ---- all together -----------------------------------------------------

  /** The indices that leave their place in the queue when a message is taken. */
  function GetDrop(q: seq<Msg>, c: Cursors): (d: set<nat>)
    requires q != []
  {
    if IsPlainTile(q[0]) then CombineDrop(q, Best(q, c, LeadingTiles(q)))
    else if IsPreview(q[0]) then Below(1 + LeadingPreviews(q[1..]))
    else {0}
  }

  /** Previews that are moved to the end of the queue. */
  function GetMoved(q: seq<Msg>): (ps: seq<Msg>)
    requires q != []
    ensures forall i :: 0 <= i < |ps| ==> IsPreview(ps[i])
  {
    if IsPreview(q[0]) then q[1 .. 1 + LeadingPreviews(q[1..])] else []
  }

  function GetResult(q: seq<Msg>, c: Cursors): Msg
    requires q != []
  {
    if IsPlainTile(q[0]) then
      var p := Best(q, c, LeadingTiles(q));
      var partners := Partners(q, p, |q|);
      if partners == [] then q[p] else TileCombine(Dedup([q[p].desc] + partners))
    else q[0]
  }

  function GetQueue(q: seq<Msg>, c: Cursors): seq<Msg>
    requires q != []
  {
    Without(q, GetDrop(q, c)) + GetMoved(q)
  }

  // ---- what it means ----------------------------------------------------

  ghost predicate Distinct(ts: seq<TileDesc>) {
    forall i, j :: 0 <= i < j < |ts| ==> !SamePosition(ts[i], ts[j])
  }

  ghost function Positions(ts: seq<TileDesc>): set<Position> {
    set t | t in ts :: Position(t.posX, t.posY)
  }

  lemma {:induction false} DedupDistinct(ts: seq<TileDesc>)
    ensures Distinct(Dedup(ts)) && Positions(Dedup(ts)) == Positions(ts)
    ensures forall t :: t in Dedup(ts) ==> t in ts
    decreases |ts|
  {
    if ts != [] {
      var rest := Elsewhere(ts[1..], ts[0]);
      ElsewhereMembers(ts[1..], ts[0]);
      DedupDistinct(rest);
      assert ts == [ts[0]] + ts[1..];
      assert forall i :: 0 <= i < |Dedup(rest)| ==> Dedup(rest)[i] in Dedup(rest);
      forall t | t in ts ensures Position(t.posX, t.posY) in Positions(Dedup(ts)) {
        if !SamePosition(ts[0], t) {
          assert t in rest;
          assert Position(t.posX, t.posY) in Positions(rest);
        }
      }
    }
  }

  /** The tiles of the messages that leave the queue. */
  ghost function TakenPositions(q: seq<Msg>, d: set<nat>): set<Position> {
    set i | i in d && i < |q| && q[i].TileMsg? :: Position(q[i].desc.posX, q[i].desc.posY)
  }

  lemma {:induction false} PartnersTaken(q: seq<Msg>, p: nat, n: nat, t: TileDesc)
    requires p < |q| && IsPlainTile(q[p]) && n <= |q|
    ensures t in Partners(q, p, n) <==>
      exists j :: 0 <= j < n && j != p && IsPlainTile(q[j]) && CanCombine(q[p].desc, q[j].desc) && q[j].desc == t
  {
    if n > 0 {
      PartnersTaken(q, p, n - 1, t);
    }
  }

  /** The tiles a result asks for. */
  function ResultTiles(r: Msg): seq<TileDesc> {
    if r.TileMsg? then [r.desc] else if r.TileCombine? then r.tiles else []
  }

  lemma CombineTakes(q: seq<Msg>, p: nat)
    requires p < |q| && IsPlainTile(q[p])
    ensures Positions([q[p].desc] + Partners(q, p, |q|)) == TakenPositions(q, CombineDrop(q, p))
  {
    var ts := [q[p].desc] + Partners(q, p, |q|);
    forall t | t in ts ensures Position(t.posX, t.posY) in TakenPositions(q, CombineDrop(q, p)) {
      PartnersTaken(q, p, |q|, t);
      if t != q[p].desc {
        var j :| 0 <= j < |q| && j != p && IsPlainTile(q[j]) && CanCombine(q[p].desc, q[j].desc) && q[j].desc == t;
        assert j in CombineDrop(q, p);
      } else {
        assert p in CombineDrop(q, p);
      }
    }
    forall i | i in CombineDrop(q, p) ensures q[i].desc in ts {
      PartnersTaken(q, p, |q|, q[i].desc);
    }
  }

  /**
   * A get on a tile: the first tile of highest priority in the leading run, with its partners.
   * The positions returned are distinct, and are exactly those that leave the queue.
   */
  lemma TileGet(q: seq<Msg>, c: Cursors)
    requires q != [] && IsPlainTile(q[0])
    ensures var r := GetResult(q, c); var ts := ResultTiles(r);
      && ts != [] && Distinct(ts) && Positions(ts) == TakenPositions(q, GetDrop(q, c))
      && forall i :: 0 <= i < |ts| ==> SameParams(ts[0], ts[i])
    ensures exists p: nat :: FirstHighest(q, c, LeadingTiles(q), p) && ResultTiles(GetResult(q, c))[0] == q[p].desc && p in GetDrop(q, c)
  {
    hide Best, PriorityUpTo, FirstHighest;
    var p := Best(q, c, LeadingTiles(q));
    BestIsFirst(q, c, LeadingTiles(q));
    var partners := Partners(q, p, |q|);
    var ts := [q[p].desc] + partners;
    CombineTakes(q, p);
    DedupDistinct(ts);
    assert partners == [] ==> ts == [q[p].desc];
    forall t | t in Dedup(ts) ensures SameParams(q[p].desc, t) {
      assert t in ts;
    }
  }

  /** If the front is a tile only tiles leave their place, one of them before any other message; else just the front leaves. */
  lemma WhoLeaves(q: seq<Msg>, c: Cursors)
    requires q != []
    ensures q[0].TileMsg? ==> forall i :: i in GetDrop(q, c) ==> i < |q| && q[i].TileMsg?
    ensures q[0].TileMsg? ==> exists i :: i in GetDrop(q, c) && forall j :: 0 <= j <= i && j < |q| ==> q[j].TileMsg?
    ensures !q[0].TileMsg? ==> GetDrop(q, c) == {0} && GetMoved(q) == [] && GetResult(q, c) == q[0]
  {
    if IsPlainTile(q[0]) {
      hide PriorityUpTo;
      var p := Best(q, c, LeadingTiles(q));
      assert p in GetDrop(q, c);
      forall j | 0 <= j <= p ensures q[j].TileMsg? {
        assert IsPlainTile(q[j]);
      }
    } else if IsPreview(q[0]) {
      forall i | i in GetDrop(q, c) ensures i < |q| && q[i].TileMsg? {
        assert i > 0 ==> q[i] == q[1..][i - 1] && IsPreview(q[1..][i - 1]);
      }
      assert 0 in GetDrop(q, c);
    }
  }

  /** A message that is not a tile is returned from the front, and otherwise moves up by at least one. */
  lemma GetAdvances(q: seq<Msg>, c: Cursors, k: nat)
    requires k < |q| && !q[k].TileMsg?
    ensures k in GetDrop(q, c) <==> k == 0
    ensures k == 0 ==> GetResult(q, c) == q[k]
    ensures k > 0 ==> var n := NewIndex(GetDrop(q, c), k); n < k && n < |GetQueue(q, c)| && GetQueue(q, c)[n] == q[k]
  {
    hide GetDrop, GetResult;
    WhoLeaves(q, c);
    var drop := GetDrop(q, c);
    if k > 0 {
      if q[0].TileMsg? {
        var i :| i in drop && forall j :: 0 <= j <= i && j < |q| ==> q[j].TileMsg?;
        NewIndexLess(drop, i, k);
      } else {
        NewIndexLess(drop, 0, k);
      }
      WithoutAt(q, drop, k);
    }
  }

  function NonTiles(q: seq<Msg>): seq<Msg> {
    if q == [] then [] else NonTiles(q[..|q| - 1]) + if q[|q| - 1].TileMsg? || q[|q| - 1].TileCombine? then [] else [q[|q| - 1]]
  }

  lemma {:induction false} NonTilesConcat(a: seq<Msg>, b: seq<Msg>)
    ensures NonTiles(a + b) == NonTiles(a) + NonTiles(b)
    decreases |b|
  {
    if b == [] {
      assert a + b == a;
    } else {
      assert (a + b)[..|a + b| - 1] == a + b[..|b| - 1];
      NonTilesConcat(a, b[..|b| - 1]);
    }
  }

  lemma {:induction false} NonTilesWithout(q: seq<Msg>, drop: set<nat>)
    requires forall i :: i in drop && i < |q| ==> q[i].TileMsg?
    ensures NonTiles(Without(q, drop)) == NonTiles(q)
  {
    if q != [] {
      var n := |q| - 1;
      NonTilesWithout(q[..n], drop);
      if n !in drop {
        NonTilesConcat(Without(q[..n], drop), [q[n]]);
        assert NonTiles([q[n]][..0]) == [];
      } else {
        assert Without(q, drop) == Without(q[..n], drop);
      }
    }
  }

  lemma {:induction false} OnlyTiles(q: seq<Msg>)
    requires forall i :: 0 <= i < |q| ==> q[i].TileMsg?
    ensures NonTiles(q) == []
  {
    if q != [] {
      OnlyTiles(q[..|q| - 1]);
    }
  }

  /** Gets never reorder the messages that are not tiles. */
  lemma GetKeepsOrder(q: seq<Msg>, c: Cursors)
    requires q != []
    ensures NonTiles([GetResult(q, c)] + GetQueue(q, c)) == NonTiles(q)
  {
    hide GetDrop;
    WhoLeaves(q, c);
    var drop, moved, r := GetDrop(q, c), GetMoved(q), GetResult(q, c);
    if q[0].TileMsg? {
      NonTilesWithout(q, drop);
      OnlyTiles(moved);
      NonTilesConcat(Without(q, drop), moved);
      NonTilesConcat([r], GetQueue(q, c));
      assert NonTiles([r][..0]) == [];
    } else {
      WithoutOne(q, 0);
      assert [r] + GetQueue(q, c) == q;
    }
  }
}
