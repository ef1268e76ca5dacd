/** What taking a message means, on the fields of the queued messages and cursors. */
module GetLaws {
  import opened Messages
  import opened QueueGet
  import QueueRuns
  import Pixels

  /** A tile of the document, not a preview. */
  predicate Plain(m: Msg) { m.TileMsg? && m.desc.id < 0 }

  predicate Preview(m: Msg) { m.TileMsg? && m.desc.id >= 0 }

  // ---- previews and messages that are no tiles --------------------------

  /** A message that is no tile is taken from the front. */
  lemma GetOther(q: seq<Msg>, c: Cursors)
    requires q != [] && !q[0].TileMsg?
    ensures GetResult(q, c) == q[0] && GetQueue(q, c) == q[1..]
  {
    WhoLeaves(q, c);
    QueueRuns.GetFirst(q, c);
  }

  /** A preview is at the front, and exactly n more follow it. */
  ghost predicate PreviewsLead(q: seq<Msg>, n: nat) {
    && 1 + n <= |q| && Preview(q[0]) && (forall i :: 1 <= i < 1 + n ==> Preview(q[i]))
    && (1 + n < |q| ==> !Preview(q[1 + n]))
  }

  lemma SomePreviews(q: seq<Msg>) returns (n: nat)
    requires q != [] && Preview(q[0])
    ensures PreviewsLead(q, n)
  {
    n := LeadingPreviews(q[1..]);
    assert forall i :: 1 <= i < |q| ==> q[i] == q[1..][i - 1];
  }

  /** A preview is taken from the front, and all previews right behind it go to the end of the queue, in order. */
  lemma GetPreview(q: seq<Msg>, c: Cursors, n: nat)
    requires PreviewsLead(q, n)
    ensures GetResult(q, c) == q[0] && GetQueue(q, c) == q[1 + n..] + q[1 .. 1 + n]
  {
    var rest := q[1..];
    var k := LeadingPreviews(rest);
    assert forall i :: 0 <= i < |rest| ==> rest[i] == q[i + 1];
    assert k == n;
    BelowDropped(q, 1 + n);
  }

  // ---- priority ---------------------------------------------------------

  /** A tile and a view's cursor have a point or an edge in common; a view without one has it at the origin. */
  predicate AtCursor(t: TileDesc, c: Cursors, view: int) {
    var k := if view in c.positions then c.positions[view] else Cursor(0, 0, 0, 0, 0);
    !(t.posX + t.tileWidth < k.x || k.x + k.w < t.posX || t.posY + t.tileHeight < k.y || k.y + k.h < t.posY)
  }

  /** A tile's priority: the highest place in the view order of a view whose cursor is at it, or -1. */
  ghost predicate HasPriority(m: Msg, c: Cursors, p: int) {
    && m.TileMsg? && -1 <= p < |c.order| && (p >= 0 ==> AtCursor(m.desc, c, c.order[p]))
    && forall i :: p < i < |c.order| ==> !AtCursor(m.desc, c, c.order[i])
  }

  lemma PriorityIs(m: Msg, c: Cursors, p: int)
    requires m.TileMsg?
    ensures HasPriority(m, c, p) <==> p == Priority(m.desc, c)
  {
    var k := Priority(m.desc, c);
    assert forall i :: 0 <= i < |c.order| ==> (AtCursor(m.desc, c, c.order[i]) <==> IntersectsWithRect(m.desc, CursorAt(c, c.order[i])));
    hide AtCursor, IntersectsWithRect;
    assert HasPriority(m, c, k);
  }

  /** The tile at p has the highest priority of the first n messages, and none before it as high a one. */
  ghost predicate IsTop(q: seq<Msg>, c: Cursors, n: nat, p: nat)
    requires n <= |q|
  {
    && p < n && exists top ::
      && HasPriority(q[p], c, top)
      && (forall i, k :: 0 <= i < n && HasPriority(q[i], c, k) ==> k <= top)
      && (forall i, k :: 0 <= i < p && HasPriority(q[i], c, k) ==> k < top)
  }

  lemma TopIsBest(q: seq<Msg>, c: Cursors, n: nat, p: nat)
    requires n <= |q| && (forall i :: 0 <= i < n ==> Plain(q[i])) && IsTop(q, c, n, p)
    ensures PlainTiles(q, n) && p == Best(q, c, n)
  {
    hide PriorityUpTo, Best, HasPriority, Priority;
    BestIsFirst(q, c, n);
    var b := Best(q, c, n);
    var top :| HasPriority(q[p], c, top)
      && (forall i, k :: 0 <= i < n && HasPriority(q[i], c, k) ==> k <= top)
      && (forall i, k :: 0 <= i < p && HasPriority(q[i], c, k) ==> k < top);
    PriorityIs(q[p], c, top);
    PriorityIs(q[b], c, Priority(q[b].desc, c));
  }

  // ---- tiles ------------------------------------------------------------

  /** Two tiles can be asked for together: the same but for place and version, in rows that touch, at most 16 tiles apart. */
  predicate Together(a: TileDesc, b: TileDesc) {
    && a.nviewid == b.nviewid && a.part == b.part && a.mode == b.mode
    && a.width == b.width && a.height == b.height && a.tileWidth == b.tileWidth && a.tileHeight == b.tileHeight
    && !(b.posY + b.tileHeight < a.posY || a.posY + a.tileHeight < b.posY)
    && -16 <= a.posX / a.tileWidth - b.posX / b.tileWidth <= 16
  }

  /** The tile at p, and every tile of the document that goes together with it, wherever it is queued. */
  ghost function Taken(q: seq<Msg>, p: nat): (d: set<nat>)
    requires p < |q| && Plain(q[p])
    ensures forall j :: j in d ==> j < |q|
  {
    set j: nat | j < |q| && (j == p || (Plain(q[j]) && Together(q[p].desc, q[j].desc)))
  }

  /** The tiles at some indices: first the one at p, then in the order of the queue, of every position the first. */
  ghost predicate Lists(q: seq<Msg>, p: nat, at: seq<nat>, tiles: seq<TileDesc>)
    requires p < |q| && Plain(q[p])
  {
    && |at| == |tiles| > 0 && at[0] == p
    && (forall k :: 0 <= k < |at| ==> at[k] in Taken(q, p) && Plain(q[at[k]]) && tiles[k] == q[at[k]].desc)
    && (forall k, l :: 1 <= k < l < |at| ==> at[k] < at[l])
    && (forall k, j :: 1 <= k < |at| && j in Taken(q, p) && (j == p || j < at[k]) ==> Apart(q[j], tiles[k]))
    && (forall j :: j in Taken(q, p) ==> exists k :: 0 <= k < |tiles| && !Apart(q[j], tiles[k]))
  }

  /** A tile elsewhere. */
  predicate Apart(m: Msg, t: TileDesc) { m.TileMsg? ==> m.desc.posX != t.posX || m.desc.posY != t.posY }

  /** Where the partners of the tile at p are queued. */
  ghost function PartnersAt(q: seq<Msg>, p: nat, n: nat): seq<nat>
    requires p < |q| && IsPlainTile(q[p]) && n <= |q|
  {
    if n == 0 then []
    else PartnersAt(q, p, n - 1) + if n - 1 != p && IsPlainTile(q[n - 1]) && CanCombine(q[p].desc, q[n - 1].desc) then [n - 1] else []
  }

  lemma {:induction false} PartnersAre(q: seq<Msg>, p: nat, n: nat)
    requires p < |q| && IsPlainTile(q[p]) && n <= |q|
    ensures var at, ts := PartnersAt(q, p, n), Partners(q, p, n);
      && |at| == |ts|
      && (forall k :: 0 <= k < |at| ==> at[k] < n && at[k] != p && IsPlainTile(q[at[k]]) && CanCombine(q[p].desc, q[at[k]].desc) && ts[k] == q[at[k]].desc)
      && (forall k, l :: 0 <= k < l < |at| ==> at[k] < at[l])
  {
    if n > 0 {
      hide CanCombine;
      PartnersAre(q, p, n - 1);
    }
  }

  lemma {:induction false} PartnersHave(q: seq<Msg>, p: nat, n: nat, j: nat)
    requires p < |q| && IsPlainTile(q[p]) && n <= |q| && j < n && j != p && IsPlainTile(q[j]) && CanCombine(q[p].desc, q[j].desc)
    ensures j in PartnersAt(q, p, n)
  {
    if j < n - 1 {
      hide CanCombine;
      PartnersHave(q, p, n - 1, j);
    }
  }

  /** Where tiles elsewhere stand, from some index on and in order; the others are at the position. */
  ghost predicate StandAt(ts: seq<TileDesc>, from: nat, a: TileDesc, r: seq<TileDesc>, es: seq<nat>) {
    && StandHere(ts, from, a, r, es) && Rising(es)
    && (forall k: nat :: from <= k < |ts| && !SamePosition(a, ts[k]) ==> k in es)
  }

  ghost predicate StandHere(ts: seq<TileDesc>, from: nat, a: TileDesc, r: seq<TileDesc>, es: seq<nat>) {
    |es| == |r| && forall i :: 0 <= i < |es| ==> from <= es[i] < |ts| && r[i] == ts[es[i]] && !SamePosition(a, r[i])
  }

  ghost predicate Rising(es: seq<nat>) { forall i, j :: 0 <= i < j < |es| ==> es[i] < es[j] }

  lemma RisingCons(x: nat, es: seq<nat>)
    requires Rising(es) && forall i :: 0 <= i < |es| ==> x < es[i]
    ensures Rising([x] + es)
  {
  }

  lemma StandCons(ts: seq<TileDesc>, from: nat, a: TileDesc, r: seq<TileDesc>, es: seq<nat>)
    requires from < |ts| && StandHere(ts, from + 1, a, r, es) && !SamePosition(a, ts[from])
    ensures StandHere(ts, from, a, [ts[from]] + r, [from] + es) && forall i :: 0 <= i < |es| ==> from < es[i]
  {
    hide SamePosition;
  }

  lemma {:induction false} ElsewhereAt(ts: seq<TileDesc>, from: nat, a: TileDesc) returns (es: seq<nat>)
    requires from <= |ts|
    ensures StandAt(ts, from, a, Elsewhere(ts[from..], a), es)
    decreases |ts| - from
  {
    hide SamePosition;
    if from == |ts| {
      es := [];
    } else {
      var more := ElsewhereAt(ts, from + 1, a);
      assert ts[from..][1..] == ts[from + 1..];
      var r := Elsewhere(ts[from + 1..], a);
      assert Elsewhere(ts[from..], a) == (if SamePosition(a, ts[from]) then [] else [ts[from]]) + r;
      hide Elsewhere;
      es := StandNext(ts, from, a, r, more);
    }
  }

  lemma StandNext(ts: seq<TileDesc>, from: nat, a: TileDesc, r: seq<TileDesc>, more: seq<nat>) returns (es: seq<nat>)
    requires from < |ts| && StandAt(ts, from + 1, a, r, more)
    ensures StandAt(ts, from, a, (if SamePosition(a, ts[from]) then [] else [ts[from]]) + r, es)
  {
    hide StandAt, SamePosition;
    if SamePosition(a, ts[from]) {
      es := more;
      assert [] + r == r;
      StandSkip(ts, from, a, r, more);
    } else {
      es := [from] + more;
      StandTake(ts, from, a, r, more);
    }
  }

  lemma StandSkip(ts: seq<TileDesc>, from: nat, a: TileDesc, r: seq<TileDesc>, more: seq<nat>)
    requires from < |ts| && StandAt(ts, from + 1, a, r, more) && SamePosition(a, ts[from])
    ensures StandAt(ts, from, a, r, more)
  {
    hide SamePosition;
  }

  lemma StandTake(ts: seq<TileDesc>, from: nat, a: TileDesc, r: seq<TileDesc>, more: seq<nat>)
    requires from < |ts| && StandAt(ts, from + 1, a, r, more) && !SamePosition(a, ts[from])
    ensures StandAt(ts, from, a, [ts[from]] + r, [from] + more)
  {
    StandCons(ts, from, a, r, more);
    RisingCons(from, more);
    hide SamePosition, StandHere, Rising;
    forall k: nat | from <= k < |ts| && !SamePosition(a, ts[k]) ensures k in [from] + more {
      assert k == from || k in more;
    }
  }

  /** Where the first tiles of each position stand, in order. */
  ghost predicate Firsts(ts: seq<TileDesc>, r: seq<TileDesc>, ks: seq<nat>) {
    && |ks| == |r| && (forall i :: 0 <= i < |ks| ==> ks[i] < |ts| && r[i] == ts[ks[i]])
    && (forall i, j :: 0 <= i < j < |ks| ==> ks[i] < ks[j])
    && (forall i, k :: 0 <= i < |ks| && 0 <= k < ks[i] ==> !SamePosition(ts[k], r[i]))
    && (ts != [] ==> ks != [] && ks[0] == 0)
  }

  lemma {:induction false} DedupAt(ts: seq<TileDesc>) returns (ks: seq<nat>)
    ensures Firsts(ts, Dedup(ts), ks)
    decreases |ts|
  {
    if ts == [] {
      ks := [];
    } else {
      hide Elsewhere, SamePosition;
      var rest := Elsewhere(ts[1..], ts[0]);
      var es := ElsewhereAt(ts, 1, ts[0]);
      var more := DedupAt(rest);
      ks := FirstsNext(ts, rest, es, Dedup(rest), more);
    }
  }

  lemma FirstsNext(ts: seq<TileDesc>, rest: seq<TileDesc>, es: seq<nat>, r: seq<TileDesc>, more: seq<nat>) returns (ks: seq<nat>)
    requires ts != [] && Firsts(rest, r, more) && StandAt(ts, 1, ts[0], rest, es)
    ensures Firsts(ts, [ts[0]] + r, ks)
  {
    hide SamePosition, Firsts, StandAt;
    assert |more| == |r| && forall i :: 0 <= i < |more| ==> more[i] < |es| by { Sized(ts, rest, es, r, more); }
    var tail := seq(|more|, i requires 0 <= i < |more| => es[more[i]]);
    ks := [0] + tail;
    var all := [ts[0]] + r;
    forall i | 0 <= i < |ks| ensures ks[i] < |ts| && all[i] == ts[ks[i]] {
      if i > 0 {
        AtOf(ts, rest, es, r, more, i - 1);
      }
    }
    forall i, j | 0 <= i < j < |ks| ensures ks[i] < ks[j] {
      if i > 0 {
        Increasing(ts, rest, es, r, more, i - 1, j - 1);
      } else {
        AtOf(ts, rest, es, r, more, j - 1);
      }
    }
    forall i, k | 0 <= i < |ks| && 0 <= k < ks[i] ensures !SamePosition(ts[k], all[i]) {
      AtOf(ts, rest, es, r, more, i - 1);
      FirstOfIts(ts, rest, es, r, more, i - 1, k);
    }
    IsFirsts(ts, all, ks);
  }

  lemma IsFirsts(ts: seq<TileDesc>, r: seq<TileDesc>, ks: seq<nat>)
    requires |ks| == |r| && (forall i :: 0 <= i < |ks| ==> ks[i] < |ts| && r[i] == ts[ks[i]])
    requires forall i, j :: 0 <= i < j < |ks| ==> ks[i] < ks[j]
    requires forall i, k :: 0 <= i < |ks| && 0 <= k < ks[i] ==> !SamePosition(ts[k], r[i])
    requires ts != [] ==> ks != [] && ks[0] == 0
    ensures Firsts(ts, r, ks)
  {
  }

  lemma Sized(ts: seq<TileDesc>, rest: seq<TileDesc>, es: seq<nat>, r: seq<TileDesc>, more: seq<nat>)
    requires ts != [] && Firsts(rest, r, more) && StandAt(ts, 1, ts[0], rest, es)
    ensures |more| == |r| && forall i :: 0 <= i < |more| ==> more[i] < |es|
  {
  }

  lemma AtOf(ts: seq<TileDesc>, rest: seq<TileDesc>, es: seq<nat>, r: seq<TileDesc>, more: seq<nat>, i: nat)
    requires ts != [] && Firsts(rest, r, more) && StandAt(ts, 1, ts[0], rest, es) && i < |more|
    ensures more[i] < |es| && 1 <= es[more[i]] < |ts| && r[i] == ts[es[more[i]]]
  {
  }

  lemma Increasing(ts: seq<TileDesc>, rest: seq<TileDesc>, es: seq<nat>, r: seq<TileDesc>, more: seq<nat>, i: nat, j: nat)
    requires ts != [] && Firsts(rest, r, more) && StandAt(ts, 1, ts[0], rest, es) && i < j < |more|
    ensures more[i] < |es| && more[j] < |es| && es[more[i]] < es[more[j]]
  {
  }

  lemma FirstOfIts(ts: seq<TileDesc>, rest: seq<TileDesc>, es: seq<nat>, r: seq<TileDesc>, more: seq<nat>, i: nat, k: nat)
    requires ts != [] && Firsts(rest, r, more) && StandAt(ts, 1, ts[0], rest, es) && i < |more| && more[i] < |es| && k < es[more[i]] < |ts|
    ensures !SamePosition(ts[k], r[i])
  {
    assert r[i] == rest[more[i]];
    if k > 0 && !SamePosition(ts[0], ts[k]) {
      var e :| 0 <= e < |es| && es[e] == k;
      assert e < more[i];
      assert !SamePosition(rest[e], r[i]);
    }
  }

  lemma TogetherIs(a: TileDesc, b: TileDesc)
    ensures Together(a, b) <==> CanCombine(a, b)
  {
  }

  lemma TakenIs(q: seq<Msg>, p: nat)
    requires p < |q| && Plain(q[p])
    ensures Taken(q, p) == CombineDrop(q, p)
  {
    hide CanCombine, Together;
    forall j | 0 <= j < |q| && Plain(q[j]) ensures Together(q[p].desc, q[j].desc) <==> CanCombine(q[p].desc, q[j].desc) {
      TogetherIs(q[p].desc, q[j].desc);
    }
  }

  /** The tiles returned are listed as they should be. */
  lemma DedupLists(q: seq<Msg>, p: nat) returns (at: seq<nat>)
    requires p < |q| && Plain(q[p])
    ensures Lists(q, p, at, Dedup([q[p].desc] + Partners(q, p, |q|)))
  {
    hide Dedup, Partners, PartnersAt, CanCombine, Together, CombineDrop;
    var all, ts := [p] + PartnersAt(q, p, |q|), [q[p].desc] + Partners(q, p, |q|);
    PartnersAre(q, p, |q|);
    var ks := DedupAt(ts);
    at := seq(|ks|, i requires 0 <= i < |ks| => all[ks[i]]);
    TakenIs(q, p);
    assert forall k :: 0 <= k < |all| ==> all[k] < |q| && Plain(q[all[k]]) && ts[k] == q[all[k]].desc;
    forall j | j in Taken(q, p) ensures j in all {
      InAll(q, p, j);
    }
    forall k | 0 <= k < |all| ensures all[k] in Taken(q, p) {
      AllTaken(q, p, all, k);
    }
    forall t | t in ts ensures exists k :: 0 <= k < |Dedup(ts)| && SamePosition(t, Dedup(ts)[k]) {
      PositionListed(ts, t);
    }
    ListsFrom(q, p, all, ts, Dedup(ts), ks, at);
  }

  lemma PositionListed(ts: seq<TileDesc>, t: TileDesc)
    requires t in ts
    ensures exists k :: 0 <= k < |Dedup(ts)| && SamePosition(t, Dedup(ts)[k])
  {
    hide Dedup;
    DedupDistinct(ts);
    assert Pixels.Position(t.posX, t.posY) in Positions(Dedup(ts));
    var u :| u in Dedup(ts) && Pixels.Position(u.posX, u.posY) == Pixels.Position(t.posX, t.posY);
    var k :| 0 <= k < |Dedup(ts)| && Dedup(ts)[k] == u;
    assert SamePosition(t, Dedup(ts)[k]);
  }

  lemma InAll(q: seq<Msg>, p: nat, j: nat)
    requires p < |q| && Plain(q[p]) && j in Taken(q, p)
    ensures j in [p] + PartnersAt(q, p, |q|)
  {
    hide PartnersAt;
    if j != p {
      TogetherIs(q[p].desc, q[j].desc);
      PartnersHave(q, p, |q|, j);
    }
  }

  lemma AllTaken(q: seq<Msg>, p: nat, all: seq<nat>, k: nat)
    requires p < |q| && Plain(q[p]) && all == [p] + PartnersAt(q, p, |q|) && k < |all|
    ensures all[k] in Taken(q, p)
  {
    hide PartnersAt, CanCombine, Together;
    PartnersAre(q, p, |q|);
    if k > 0 {
      assert all[k] == PartnersAt(q, p, |q|)[k - 1];
      TogetherIs(q[p].desc, q[all[k]].desc);
    }
  }

  lemma ListsFrom(q: seq<Msg>, p: nat, all: seq<nat>, ts: seq<TileDesc>, r: seq<TileDesc>, ks: seq<nat>, at: seq<nat>)
    requires p < |q| && Plain(q[p]) && |all| == |ts| > 0 && all[0] == p && Firsts(ts, r, ks)
    requires |at| == |ks| && forall i :: 0 <= i < |ks| ==> at[i] == all[ks[i]]
    requires forall k :: 0 <= k < |all| ==> all[k] in Taken(q, p) && Plain(q[all[k]]) && ts[k] == q[all[k]].desc
    requires forall k, l :: 1 <= k < l < |all| ==> all[k] < all[l]
    requires forall j :: j in Taken(q, p) ==> j in all
    requires forall t :: t in ts ==> exists k :: 0 <= k < |r| && SamePosition(t, r[k])
    ensures Lists(q, p, at, r)
  {
    hide Taken;
    forall k, j | 1 <= k < |at| && j in Taken(q, p) && (j == p || j < at[k]) ensures Apart(q[j], r[k]) {
      ListedFirst(q, p, all, ts, r, ks, k, j);
    }
    forall j | j in Taken(q, p) ensures exists k :: 0 <= k < |r| && !Apart(q[j], r[k]) {
      var l :| 0 <= l < |all| && all[l] == j;
      assert ts[l] in ts;
      var k :| 0 <= k < |r| && SamePosition(ts[l], r[k]);
      assert !Apart(q[j], r[k]);
    }
  }

  lemma ListedFirst(q: seq<Msg>, p: nat, all: seq<nat>, ts: seq<TileDesc>, r: seq<TileDesc>, ks: seq<nat>, k: nat, j: nat)
    requires |all| == |ts| > 0 && all[0] == p && Firsts(ts, r, ks) && 1 <= k < |ks| && j in all && j < |q| && (j == p || j < all[ks[k]])
    requires forall i :: 0 <= i < |all| ==> all[i] < |q| && Plain(q[all[i]]) && ts[i] == q[all[i]].desc
    requires forall i, l :: 1 <= i < l < |all| ==> all[i] < all[l]
    ensures Apart(q[j], r[k])
  {
    var i: nat :| i < |all| && all[i] == j;
    var l := if j == p then 0 else i;
    assert ks[0] < ks[k];
    assert l < ks[k];
    assert !SamePosition(ts[l], r[k]) && ts[l] == q[j].desc;
  }

  /** Exactly n tiles of the document lead the queue, and the one at p is the first of highest priority among them. */
  ghost predicate TilesLead(q: seq<Msg>, c: Cursors, n: nat, p: nat) {
    n <= |q| && (forall i :: 0 <= i < n ==> Plain(q[i])) && (n < |q| ==> !Plain(q[n])) && IsTop(q, c, n, p)
  }

  lemma SomeTop(q: seq<Msg>, c: Cursors) returns (n: nat, p: nat)
    requires q != [] && Plain(q[0])
    ensures TilesLead(q, c, n, p)
  {
    hide PriorityUpTo, Priority, HasPriority;
    n := LeadingTiles(q);
    p := Best(q, c, n);
    BestIsFirst(q, c, n);
    var top := Priority(q[p].desc, c);
    forall i, k | 0 <= i < n ensures HasPriority(q[i], c, k) <==> k == Priority(q[i].desc, c) {
      PriorityIs(q[i], c, k);
    }
    assert HasPriority(q[p], c, top);
    assert IsTop(q, c, n, p);
  }

  /**
   * A get whose front is a tile of the document. Of the tiles that lead the queue the first of
   * highest priority is taken, and with it every tile in the queue that goes together with it. It
   * is returned as it was exactly if there is no other; else the tiles are listed, of every
   * position the first.
   */
  lemma GetTile(q: seq<Msg>, c: Cursors, n: nat, p: nat)
    requires TilesLead(q, c, n, p)
    ensures GetQueue(q, c) == Without(q, Taken(q, p))
    ensures if Taken(q, p) == {p} then GetResult(q, c) == TileMsg(q[p].desc)
            else GetResult(q, c).TileCombine? && exists at :: Lists(q, p, at, GetResult(q, c).tiles)
  {
    hide IsTop, Best, Lists, Taken, Without, Dedup, Partners, CombineDrop;
    assert LeadingTiles(q) == n;
    TopIsBest(q, c, n, p);
    TakenIs(q, p);
    var at := DedupLists(q, p);
    AloneExactly(q, p);
    var w := Without(q, Taken(q, p));
    assert w + [] == w;
  }

  lemma AloneExactly(q: seq<Msg>, p: nat)
    requires p < |q| && Plain(q[p])
    ensures Taken(q, p) == {p} <==> Partners(q, p, |q|) == []
  {
    hide Partners, PartnersAt, Together, CanCombine;
    PartnersAre(q, p, |q|);
    var at := PartnersAt(q, p, |q|);
    if at != [] {
      AllTaken(q, p, [p] + at, 1);
      assert at[0] in Taken(q, p) && at[0] != p;
    } else {
      forall j | j in Taken(q, p) ensures j == p {
        InAll(q, p, j);
      }
      assert p in Taken(q, p);
    }
  }
}
