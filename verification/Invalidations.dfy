/** When queuing an invalidation loses no area, although the queue reads every "EMPTY" as mode 0. */
module Invalidations {
  import opened Wrappers
  import opened Messages
  import opened QueuePut

  /** A point of a part in an edit mode of a view. */
  datatype Spot = Spot(view: string, part: int, mode: int, x: int, y: int)

  predicate Hits(r: Area, s: Spot)
    requires r.Rect?
  {
    r.part == s.part && r.mode == s.mode && r.x <= s.x < r.x + r.w && r.y <= s.y < r.y + r.h
  }

  /** The invalidation makes its receiver redraw the spot; for the receiver "EMPTY" has its own mode. */
  predicate Covers(m: Msg, s: Spot) {
    && m.Callback? && m.view == s.view && m.payload.Invalidate?
    && match m.payload.area
       case Rect(_, _, _, _, _, _) => Hits(m.payload.area, s)
       case Empty(part, mode) => part == s.part && mode == s.mode && 0 <= s.x < INT_MAX && 0 <= s.y < INT_MAX
       case NoArea(_) => false
  }

  ghost predicate Covered(q: seq<Msg>, s: Spot) {
    exists i :: 0 <= i < |q| && Covers(q[i], s)
  }

  /** Every spot covered by the queue or by m is covered once m is queued. */
  ghost predicate NoAreaLost(q: seq<Msg>, m: Msg) {
    forall s :: Covered(q, s) || Covers(m, s) ==> Covered(Put(q, m), s)
  }

  predicate HasArea(m: Msg) { m.Callback? && m.payload.Invalidate? && Extract(m.payload.area).Some? }

  /** What the queue takes "EMPTY" for, whatever its mode. */
  const EVERYTHING := Rect(0, 0, INT_MAX, INT_MAX, 0, 0)

  /** The queue takes the message for all of its part in mode 0. */
  predicate ReadsAsAll(m: Msg) {
    HasArea(m) && (var r := Extract(m.payload.area).value; r.mode == 0 && Inside(EVERYTHING, r))
  }

  /** The message cannot take the spot away from any queue: it does not read as all of the spot's part, or is in its mode. */
  predicate SafeFor(m: Msg, s: Spot) {
    ReadsAsAll(m) && m.view == s.view && m.payload.area.part == s.part && InRange(s) ==> m.payload.area.mode == s.mode
  }

  predicate InMode(m: Msg, s: Spot) { HasArea(m) && m.payload.area.mode == s.mode }

  predicate InRange(s: Spot) { 0 <= s.x < INT_MAX && 0 <= s.y < INT_MAX }

  lemma InsideHits(a: Area, b: Area, s: Spot)
    requires a.Rect? && b.Rect? && Inside(a, b) && a.part == b.part && a.mode == b.mode && Hits(a, s)
    ensures Hits(b, s)
  {
  }

  /** A message that covers a spot is safe for it. */
  lemma CoversSafe(m: Msg, s: Spot)
    requires Covers(m, s)
    ensures HasArea(m) && m.payload.area.mode == s.mode && m.payload.area.part == s.part && m.view == s.view && SafeFor(m, s)
  {
  }

  lemma PutIs(q: seq<Msg>, m: Msg)
    ensures Put(q, m) == if m.TileCombine? then PutTiles(q, m.tiles) else PutOne(q, m)
  {
  }

  /** The message that is appended covers all that the incoming one covers. */
  lemma NewCovers(q: seq<Msg>, m: Msg, s: Spot)
    requires Covers(m, s)
    ensures Covers(PutNew(q, m), s)
  {
    hide FindEdit, FindFirst, Absorb;
    var r := Extract(m.payload.area).value;
    var a := Absorb(q, |q|, m.view, r);
    if m.payload.area.Rect? {
      InsideHits(r, a.rect, s);
    } else {
      EverythingStays(q, |q|, m.view, r);
    }
  }

  /** A rectangle that holds everything is joined with nothing. */
  lemma EverythingStays(q: seq<Msg>, n: nat, view: string, r: Area)
    requires r.Rect? && n <= |q| && Inside(EVERYTHING, r)
    ensures !Absorb(q, n, view, r).merged
  {
    hide Absorb;
    var a := Absorb(q, n, view, r);
    assert Inside(r, a.rect);
  }

  /** Only a rectangle that holds everything takes an "EMPTY" out of the queue. */
  lemma EmptyAbsorbed(q: seq<Msg>, n: nat, view: string, r: Area, i: nat)
    requires r.Rect? && n <= |q| && i in Absorb(q, n, view, r).drop && i < |q|
    ensures q[i].Callback? && q[i].payload.Invalidate? && (q[i].payload.area.Empty? ==> Inside(EVERYTHING, r))
  {
    hide Absorb;
    assert SameTarget(q[i], view, r);
    var a := Absorb(q, n, view, r);
    assert Inside(Extract(q[i].payload.area).value, a.rect);
  }

  /** What is dropped for an invalidation in its own mode stays covered by it. */
  lemma SameModeCovered(q: seq<Msg>, m: Msg, s: Spot, i: nat)
    requires i < |q| && Covers(q[i], s) && i in PutDrop(q, m) && InMode(m, s)
    ensures Covers(PutNew(q, m), s)
  {
    hide FindEdit, FindFirst, Absorb;
    var r := Extract(m.payload.area).value;
    var a := Absorb(q, |q|, m.view, r);
    assert SameTarget(q[i], m.view, r) && Inside(Extract(q[i].payload.area).value, a.rect);
    if m.payload.area.Empty? {
      EverythingStays(q, |q|, m.view, r);
    }
  }

  lemma OnlyAreasDropAreas(q: seq<Msg>, m: Msg, s: Spot, i: nat)
    requires i < |q| && Covers(q[i], s) && i in PutDrop(q, m)
    ensures HasArea(m) && i in Absorb(q, |q|, m.view, Extract(m.payload.area).value).drop
    ensures SameTarget(q[i], m.view, Extract(m.payload.area).value)
  {
    hide FindEdit, FindFirst, Absorb;
    assert HasArea(q[i]) && !IsEdit(q[i]) && ClassOf(q[i]).None?;
  }

  lemma DroppedMode(q: seq<Msg>, m: Msg, s: Spot, i: nat)
    requires i < |q| && Covers(q[i], s) && i in PutDrop(q, m) && SafeFor(m, s)
    ensures InMode(m, s)
  {
    hide PutDrop, Absorb;
    OnlyAreasDropAreas(q, m, s, i);
    var r := Extract(m.payload.area).value;
    EmptyAbsorbed(q, |q|, m.view, r, i);
    if m.payload.area.Empty? {
      EverythingStays(q, |q|, m.view, r);
      assert Inside(Extract(q[i].payload.area).value, r);
    }
  }

  /** What is not dropped still covers; what is dropped is covered by the new message, if that is in the spot's mode. */
  lemma OneKept(q: seq<Msg>, m: Msg, s: Spot)
    requires Covered(q, s) || Covers(m, s)
    requires forall i :: 0 <= i < |q| && Covers(q[i], s) && i in PutDrop(q, m) ==> InMode(m, s)
    ensures Covered(PutOne(q, m), s)
  {
    hide PutDrop, PutNew, Covers, InMode;
    var d := PutDrop(q, m);
    var last := PutOne(q, m)[|Without(q, d)|];
    if Covers(m, s) {
      NewCovers(q, m, s);
      assert Covers(last, s);
    } else {
      var i :| 0 <= i < |q| && Covers(q[i], s);
      if i in d {
        SameModeCovered(q, m, s, i);
        assert Covers(last, s);
      } else {
        WithoutAt(q, d, i);
        assert Covers(PutOne(q, m)[NewIndex(d, i)], s);
      }
    }
  }

  lemma OneSafe(q: seq<Msg>, m: Msg, s: Spot)
    requires SafeFor(m, s) && (Covered(q, s) || Covers(m, s))
    ensures Covered(PutOne(q, m), s)
  {
    hide PutDrop, PutOne, Covers, InMode, SafeFor, Covered;
    forall i | 0 <= i < |q| && Covers(q[i], s) && i in PutDrop(q, m) ensures InMode(m, s) {
      DroppedMode(q, m, s, i);
    }
    OneKept(q, m, s);
  }

  lemma {:induction false} TilesKept(q: seq<Msg>, tiles: seq<TileDesc>, s: Spot)
    requires Covered(q, s)
    ensures Covered(PutTiles(q, tiles), s)
  {
    if tiles != [] {
      hide Covered, PutOne;
      var front, last := tiles[..|tiles| - 1], TileMsg(tiles[|tiles| - 1]);
      TilesKept(q, front, s);
      OneSafe(PutTiles(q, front), last, s);
    }
  }

  /** A spot that the queue or a message safe for it covers stays covered once the message is queued. */
  lemma AreaKept(q: seq<Msg>, m: Msg, s: Spot)
    requires SafeFor(m, s) && (Covered(q, s) || Covers(m, s))
    ensures Covered(Put(q, m), s)
  {
    hide Put, Covered, PutOne, SafeFor;
    PutIs(q, m);
    if m.TileCombine? {
      TilesKept(q, m.tiles, s);
    } else {
      OneSafe(q, m, s);
    }
  }

  // ---- what is lost -----------------------------------------------------

  /** An "EMPTY" in the mode of the spot. */
  function Victim(s: Spot): Msg { Callback(s.view, Invalidate(Empty(s.part, s.mode))) }

  /** A message that is not safe for a spot takes it away from the queue that holds an "EMPTY" in the spot's mode. */
  lemma UnsafeLoses(m: Msg, s: Spot)
    requires !SafeFor(m, s)
    ensures Covered([Victim(s)], s) && !Covered(Put([Victim(s)], m), s)
  {
    var q := [Victim(s)];
    assert Covers(q[0], s) && !Covers(m, s);
    OnlyDrops(q, m);
    assert Put(q, m) == [m];
  }

  /** A message that reads as all of mode 0 takes out the one message it finds if that reads as inside of it. */
  lemma OnlyDrops(q: seq<Msg>, m: Msg)
    requires |q| == 1 && ReadsAsAll(m) && SameTarget(q[0], m.view, Extract(m.payload.area).value)
    requires Inside(Extract(q[0].payload.area).value, Extract(m.payload.area).value)
    ensures Put(q, m) == [m]
  {
    var r := Extract(m.payload.area).value;
    assert Absorb(q, 0, m.view, r) == Absorbed({}, r, false);
    assert Absorb(q, 1, m.view, r) == Absorbed({0}, r, false);
    WithoutOne(q, 0);
  }

  /** A message takes a spot away from no queue exactly when it is safe for the spot. */
  lemma SpotKeptExactlyWhen(m: Msg, s: Spot)
    ensures (forall q :: Covered(q, s) || Covers(m, s) ==> Covered(Put(q, m), s)) <==> SafeFor(m, s)
  {
    hide Covered, Covers, SafeFor, Put;
    if SafeFor(m, s) {
      forall q | Covered(q, s) || Covers(m, s) ensures Covered(Put(q, m), s) {
        AreaKept(q, m, s);
      }
    } else {
      UnsafeLoses(m, s);
    }
  }

  /** It loses no area of any queue exactly when it does not read as all of its part in mode 0. */
  lemma NoAreaLostExactlyWhen(m: Msg)
    ensures (forall q :: NoAreaLost(q, m)) <==> !ReadsAsAll(m)
  {
    hide Covered, Covers, Put;
    if ReadsAsAll(m) {
      var s := Spot(m.view, m.payload.area.part, m.payload.area.mode + 1, 0, 0);
      UnsafeLoses(m, s);
      assert !NoAreaLost([Victim(s)], m);
    } else {
      forall q ensures NoAreaLost(q, m) {
        forall s | Covered(q, s) || Covers(m, s) ensures Covered(Put(q, m), s) {
          AreaKept(q, m, s);
        }
      }
    }
  }

  /** "EMPTY" without a mode takes a queued "EMPTY" with one away. */
  lemma EmptyDropsModed(view: string, part: int)
    ensures !NoAreaLost([Callback(view, Invalidate(Empty(part, 1)))], Callback(view, Invalidate(Empty(part, 0))))
  {
    var m, s := Callback(view, Invalidate(Empty(part, 0))), Spot(view, part, 1, 0, 0);
    UnsafeLoses(m, s);
  }

  // ---- queues without "EMPTY" in a mode ---------------------------------

  /** "EMPTY" comes without a mode, or with mode 0. */
  predicate Plain(m: Msg) {
    m.Callback? && m.payload.Invalidate? && m.payload.area.Empty? ==> m.payload.area.mode == 0
  }

  ghost predicate AllPlain(q: seq<Msg>) { forall i :: 0 <= i < |q| ==> Plain(q[i]) }

  lemma PlainMode(q: seq<Msg>, m: Msg, s: Spot, i: nat)
    requires i < |q| && Plain(q[i]) && Plain(m) && Covers(q[i], s) && i in PutDrop(q, m)
    ensures InMode(m, s)
  {
    hide PutDrop, Absorb;
    OnlyAreasDropAreas(q, m, s, i);
  }

  lemma PlainKeeps(q: seq<Msg>, m: Msg, s: Spot)
    requires AllPlain(q) && Plain(m) && (Covered(q, s) || Covers(m, s))
    ensures Covered(Put(q, m), s)
  {
    hide PutDrop, PutOne, Covers, InMode, Covered, Plain, Put;
    PutIs(q, m);
    if m.TileCombine? {
      NoTileCovers(m, s);
      TilesKept(q, m.tiles, s);
    } else {
      forall i | 0 <= i < |q| && Covers(q[i], s) && i in PutDrop(q, m) ensures InMode(m, s) {
        PlainMode(q, m, s, i);
      }
      OneKept(q, m, s);
    }
  }

  lemma NoTileCovers(m: Msg, s: Spot)
    requires m.TileCombine?
    ensures !Covers(m, s)
  {
  }

  /** A message loses no area of any queue without a moded "EMPTY" exactly when it is none itself. */
  lemma PlainLostExactlyWhen(m: Msg)
    ensures (forall q :: AllPlain(q) ==> NoAreaLost(q, m)) <==> Plain(m)
  {
    hide Covered, Covers, Put;
    if Plain(m) {
      forall q | AllPlain(q) ensures NoAreaLost(q, m) {
        forall s | Covered(q, s) || Covers(m, s) ensures Covered(Put(q, m), s) {
          PlainKeeps(q, m, s);
        }
      }
    } else {
      ModedEmptyLoses(m);
    }
  }

  /** "EMPTY" with a mode drops a queued rectangle of mode 0, which the receiver then never redraws. */
  lemma ModedEmptyLoses(m: Msg)
    requires !Plain(m)
    ensures exists q :: AllPlain(q) && !NoAreaLost(q, m)
  {
    var part := m.payload.area.part;
    var q, s := [Callback(m.view, Invalidate(Rect(0, 0, 1, 1, part, 0)))], Spot(m.view, part, 0, 0, 0);
    assert Covers(q[0], s);
    assert !Covers(m, s);
    OnlyDrops(q, m);
    assert AllPlain(q) && !NoAreaLost(q, m);
  }

  /** No queued rectangle inside the incoming one survives. */
  lemma InsideIsDropped(q: seq<Msg>, m: Msg, i: nat)
    requires HasArea(m) && i < |q| && SameTarget(q[i], m.view, Extract(m.payload.area).value)
    requires Inside(Extract(q[i].payload.area).value, Extract(m.payload.area).value)
    ensures i in PutDrop(q, m)
  {
    InsideAbsorbed(q, |q|, m.view, Extract(m.payload.area).value, i);
  }

  lemma {:induction false} InsideAbsorbed(q: seq<Msg>, n: nat, view: string, r: Area, i: nat)
    requires r.Rect? && i < n <= |q| && SameTarget(q[i], view, r) && Inside(Extract(q[i].payload.area).value, r)
    ensures i in Absorb(q, n, view, r).drop
  {
    if i < n - 1 {
      InsideAbsorbed(q, n - 1, view, r, i);
    }
  }

  /** Only a rectangle is ever rewritten, "EMPTY" is not; to one of reasonable size, for the same part and mode. */
  lemma MergedIsReasonable(q: seq<Msg>, m: Msg)
    requires HasArea(m) && PutNew(q, m) != m
    ensures m.payload.area.Rect?
    ensures var a, b := m.payload.area, PutNew(q, m).payload.area;
      b.Rect? && b.w <= 15360 && b.h <= 7680 && b.part == a.part && b.mode == a.mode && Within(a, b)
  {
    hide FindEdit, FindFirst, Absorb;
  }

  // ---- what is merged, on the fields of rectangles ----------------------

  /** One rectangle lies in another. */
  predicate Within(inner: Area, outer: Area)
    requires inner.Rect? && outer.Rect?
  {
    && outer.x <= inner.x && inner.x + inner.w <= outer.x + outer.w
    && outer.y <= inner.y && inner.y + inner.h <= outer.y + outer.h
  }

  /** Two rectangles have a point or an edge in common. */
  predicate Touch(a: Area, b: Area)
    requires a.Rect? && b.Rect?
  {
    !(a.x + a.w < b.x || b.x + b.w < a.x || a.y + a.h < b.y || b.y + b.h < a.y)
  }

  /** The smallest rectangle around two: it holds both, and each of its edges is one of theirs. */
  predicate IsHull(u: Area, a: Area, b: Area)
    requires u.Rect? && a.Rect? && b.Rect?
  {
    && Within(a, u) && Within(b, u)
    && (u.x == a.x || u.x == b.x) && (u.x + u.w == a.x + a.w || u.x + u.w == b.x + b.w)
    && (u.y == a.y || u.y == b.y) && (u.y + u.h == a.y + a.h || u.y + u.h == b.y + b.h)
  }

  /** What the queue takes a message for. */
  function ReadAs(m: Msg): Option<Area> {
    if !(m.Callback? && m.payload.Invalidate?) then None
    else match m.payload.area
      case Rect(x, y, w, h, part, mode) => Some(Rect(x, y, w, h, part, mode))
      case Empty(part, _) => Some(Rect(0, 0, 2147483647, 2147483647, part, 0))
      case NoArea(_) => None
  }

  /** A queued message is an invalidation for the same view, part and mode. */
  predicate SameAim(x: Msg, m: Msg)
    requires ReadAs(m).Some?
  {
    && ReadAs(x).Some? && x.view == m.view
    && ReadAs(x).value.part == ReadAs(m).value.part && ReadAs(x).value.mode == ReadAs(m).value.mode
  }

  /**
   * How an invalidation n that has gone over a queue, of which w is left, goes over one more
   * message x: it leaves it, takes it out, or takes it out and grows to the smallest rectangle around both.
   */
  ghost predicate MergesTo(w: seq<Msg>, n: Msg, x: Msg, after: seq<Msg>)
    requires ReadAs(n).Some?
  {
    if !SameAim(x, n) then after == w + [x] + [n]
    else
      var r, y := ReadAs(n).value, ReadAs(x).value;
      if Within(y, r) then after == w + [n]
      else if Touch(r, y) && HullFits(r, y) then
        exists u: Area ::
          u.Rect? && IsHull(u, r, y) && u.part == r.part && u.mode == r.mode && after == w + [Callback(n.view, Invalidate(u))]
      else after == w + [x] + [n]
  }

  /** The rectangle around both is at most 15360 wide and 7680 high. */
  predicate HullFits(a: Area, b: Area)
    requires a.Rect? && b.Rect?
  {
    && a.w <= 15360 && b.w <= 15360 && a.x + a.w - b.x <= 15360 && b.x + b.w - a.x <= 15360
    && a.h <= 7680 && b.h <= 7680 && a.y + a.h - b.y <= 7680 && b.y + b.h - a.y <= 7680
  }

  lemma ReadAsIs(m: Msg)
    ensures HasArea(m) <==> ReadAs(m).Some?
    ensures HasArea(m) ==> Extract(m.payload.area) == ReadAs(m)
  {
  }

  lemma AroundIsHull(a: Area, b: Area)
    requires a.Rect? && b.Rect?
    ensures IsHull(Around(a, b), a, b) && (Reasonable(Around(a, b)) <==> HullFits(a, b))
  {
  }

  lemma {:induction false} AbsorbPrefix(q: seq<Msg>, x: Msg, n: nat, view: string, r: Area)
    requires r.Rect? && n <= |q|
    ensures Absorb(q + [x], n, view, r) == Absorb(q, n, view, r)
  {
    if n > 0 {
      AbsorbPrefix(q, x, n - 1, view, r);
      assert (q + [x])[n - 1] == q[n - 1];
    }
  }

  lemma WithoutPrefix(q: seq<Msg>, x: Msg, drop: set<nat>)
    ensures Without(q + [x], drop) == Without(q, drop) + if |q| in drop then [] else [x]
  {
    assert (q + [x])[..|q|] == q;
  }

  lemma DropSame(q: seq<Msg>, drop: set<nat>)
    ensures Without(q, drop + {|q|}) == Without(q, drop)
  {
    DropBeyond(q, drop, |q|);
  }

  lemma {:induction false} DropBeyond(q: seq<Msg>, drop: set<nat>, n: nat)
    requires |q| <= n
    ensures Without(q, drop + {n}) == Without(q, drop)
  {
    if q != [] {
      DropBeyond(q[..|q| - 1], drop, n);
    }
  }

  /** An empty queue, and one more message: together they say what a put of an invalidation does to any queue. */
  lemma MergeNone(m: Msg)
    requires ReadAs(m).Some?
    ensures Put([], m) == [m]
  {
    ReadAsIs(m);
    assert Absorb([], 0, m.view, ReadAs(m).value) == Absorbed({}, ReadAs(m).value, false);
  }

  lemma MergeLast(q: seq<Msg>, x: Msg, m: Msg)
    requires ReadAs(m).Some?
    ensures var before := Put(q, m); var w, n := before[..|before| - 1], before[|before| - 1];
      ReadAs(n).Some? && n.view == m.view && MergesTo(w, n, x, Put(q + [x], m))
  {
    hide Absorb, Without, Inside, RectanglesIntersect, Reasonable, Around, IsHull, HullFits, FindFirst;
    ReadAsIs(m);
    ReadAsIs(x);
    var r := ReadAs(m).value;
    var a, b := Absorb(q, |q|, m.view, r), Absorb(q + [x], |q| + 1, m.view, r);
    AbsorbPrefix(q, x, |q|, m.view, r);
    AbsorbMore(q, x, m.view, r);
    var w, n := Without(q, a.drop), PutNew(q, m);
    assert Put(q, m) == w + [n] && Put(q, m)[..|w|] == w;
    assert ReadAs(n).Some? && n.view == m.view && ReadAs(n).value == a.rect;
    WithoutPrefix(q, x, b.drop);
    DropSame(q, a.drop);
    if SameAim(x, m) {
      AroundIsHull(a.rect, ReadAs(x).value);
      FieldsSay(ReadAs(x).value, a.rect);
    }
    assert Put(q + [x], m) == Without(q + [x], b.drop) + [PutNew(q + [x], m)];
  }

  lemma FieldsSay(y: Area, r: Area)
    requires y.Rect? && r.Rect?
    ensures Within(y, r) <==> Inside(y, r)
    ensures Touch(r, y) <==> RectanglesIntersect(r, y)
  {
  }

  lemma AbsorbMore(q: seq<Msg>, x: Msg, view: string, r: Area)
    requires r.Rect?
    ensures var a, b := Absorb(q, |q|, view, r), Absorb(q + [x], |q| + 1, view, r);
      && |q| !in a.drop
      && if !SameTarget(x, view, r) then b == a
         else
           var y := Extract(x.payload.area).value;
           if Inside(y, a.rect) then b == Absorbed(a.drop + {|q|}, a.rect, a.merged)
           else if RectanglesIntersect(a.rect, y) && Reasonable(Around(a.rect, y)) then b == Absorbed(a.drop + {|q|}, Around(a.rect, y), true)
           else b == a
  {
    AbsorbPrefix(q, x, |q|, view, r);
    assert (q + [x])[|q|] == x;
  }

  /** Whatever holds the incoming rectangle and all that are dropped for it holds the one that is queued. */
  lemma SmallestMerge(q: seq<Msg>, m: Msg, big: Area)
    requires ReadAs(m).Some? && big.Rect? && Within(ReadAs(m).value, big)
    requires forall i :: i in PutDrop(q, m) ==> ReadAs(q[i]).Some? && Within(ReadAs(q[i]).value, big)
    ensures ReadAs(PutNew(q, m)).Some? && Within(ReadAs(PutNew(q, m)).value, big)
  {
    hide Absorb;
    ReadAsIs(m);
    var r := ReadAs(m).value;
    SmallestAbsorb(q, |q|, m.view, r, big);
  }

  lemma {:induction false} SmallestAbsorb(q: seq<Msg>, n: nat, view: string, r: Area, big: Area)
    requires n <= |q| && r.Rect? && big.Rect? && Within(r, big)
    requires forall i :: i in Absorb(q, n, view, r).drop ==> ReadAs(q[i]).Some? && Within(ReadAs(q[i]).value, big)
    ensures Within(Absorb(q, n, view, r).rect, big)
  {
    if n > 0 {
      var a, b := Absorb(q, n - 1, view, r), Absorb(q, n, view, r);
      assert forall i :: i in a.drop ==> i in b.drop;
      SmallestAbsorb(q, n - 1, view, r, big);
      if b.rect != a.rect {
        assert n - 1 in b.drop;
        ReadAsIs(q[n - 1]);
      }
    }
  }
}
