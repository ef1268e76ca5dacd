/** A whole render (common/RenderTiles.hpp): layout, one job for each tile, and one message for each job. */
module RenderTiles {
  import opened Pixels
  import opened DeltaStream
  import opened DeltaGenerator
  import opened RenderOutput

  const KEYFRAME_MARK: Byte := 'Z' as int
  const DELTA_MARK: Byte := 'D' as int

  /** A tile to render: its place, its wire id, and whether the client has nothing to apply a delta to. */
  datatype Request = Request(pos: Position, wid: nat, forceKeyframe: bool)

  /** What the jobs of a render share and only read. */
  datatype Plan = Plan(
    tiles: seq<Request>, rects: seq<Rectangle>, pixmap: seq<Pixel>, width: nat, height: nat, tileWidth: nat, part: int,
    viewId: int, pixelWidth: nat, pixelHeight: nat, mode: TileMode)
  {
    function Location(i: nat): TileLocation
      requires i < |tiles|
    {
      TileLocation(tiles[i].pos.x, tiles[i].pos.y, tileWidth, part, viewId)
    }

    /** Every tile has its pixels inside the pixmap, and no tile is asked for twice. */
    ghost predicate Valid() {
      && |rects| == |tiles| && |pixmap| == height * width && pixelWidth <= 256 && pixelHeight <= 256
      && (forall i :: 0 <= i < |tiles| ==> Placed(rects[i]))
      && (forall i, j :: 0 <= i < j < |tiles| ==> tiles[i].pos != tiles[j].pos)
    }

    ghost predicate Placed(r: Rectangle) {
      && 0 <= r.x1 && r.x2 == r.x1 + pixelWidth && r.x2 <= width
      && 0 <= r.y1 && r.y2 == r.y1 + pixelHeight && r.y2 <= height
    }

    /** The pixels of a tile's own rectangle. */
    ghost function Picture(i: nat): Tile
      requires Valid() && i < |tiles|
    {
      PixmapTile(pixmap, width, height, rects[i].x1, rects[i].y1, pixelWidth, pixelHeight)
    }
  }

  /** The bytes send a picture: as a delta from what is cached for its location if one is due, or all of it. */
  ghost predicate Sends(bytes: seq<Byte>, loc: TileLocation, picture: Tile, forceKeyframe: bool, width: nat, height: nat, mode: TileMode,
                        entries: map<TileLocation, CacheEntry>, tiles: map<TileLocation, Tile>)
  {
    if DeltaDue(entries, loc, forceKeyframe, width, height) then
      && loc in tiles && |bytes| > 0 && bytes[0] == 68
      && IsDelta(bytes[1..], WireTile(tiles[loc], mode), WireTile(picture, mode), width, height)
    else bytes == [90] + FlatBytes(WireTile(picture, mode))
  }

  ghost predicate OwnBytes(plan: Plan, i: nat, bytes: seq<Byte>, entries: map<TileLocation, CacheEntry>, tiles: map<TileLocation, Tile>)
    requires plan.Valid() && i < |plan.tiles|
  {
    Sends(bytes, plan.Location(i), plan.Picture(i), plan.tiles[i].forceKeyframe, plan.pixelWidth, plan.pixelHeight, plan.mode, entries, tiles)
  }

  /** The picture of a tile is cached for its location, with its wire id. */
  ghost predicate IsCached(plan: Plan, i: nat, entries: map<TileLocation, CacheEntry>, tiles: map<TileLocation, Tile>)
    requires plan.Valid() && i < |plan.tiles|
  {
    var loc := plan.Location(i);
    loc in tiles && tiles[loc] == plan.Picture(i) && loc in entries && entries[loc].wid == plan.tiles[i].wid
  }

  /** The job of one tile. */
  method Job(gen: Generator, plan: Plan, i: nat, hasAvx2: bool) returns (data: seq<Byte>)
    requires gen.Valid() && plan.Valid() && i < |plan.tiles|
    modifies gen
    ensures gen.Valid() && gen.maxEntries == old(gen.maxEntries)
    ensures OwnBytes(plan, i, data, old(gen.entries), old(gen.tiles))
    ensures SameElsewhere(gen.entries, old(gen.entries), plan.Location(i)) && SameElsewhere(gen.tiles, old(gen.tiles), plan.Location(i))
    ensures plan.pixelWidth % 2 == 0 ==> IsCached(plan, i, gen.entries, gen.tiles)
  {
    hide FlatBytes, IsDelta, gen.Valid;
    var r := plan.rects[i];
    var m := gen.CompressOrDelta(plan.pixmap, r.x1, r.y1, plan.pixelWidth, plan.pixelHeight, plan.width, plan.height,
                                 plan.Location(i), plan.tiles[i].wid, plan.tiles[i].forceKeyframe, plan.mode, hasAvx2);
    data := match m case Keyframe(_, _, bytes) => [KEYFRAME_MARK] + bytes case Delta(bytes) => [DELTA_MARK] + bytes;
  }

  /** Each tile's job once, in the order in which they end. */
  ghost predicate EachOnce(order: seq<nat>, n: nat) {
    && |order| == n && (forall k :: 0 <= k < n ==> order[k] < n)
    && (forall j, k :: 0 <= j < k < n ==> order[j] != order[k])
  }

  ghost predicate SameAt<V>(a: map<TileLocation, V>, b: map<TileLocation, V>, loc: TileLocation) {
    (loc in a <==> loc in b) && (loc in a ==> a[loc] == b[loc])
  }

  /** The locations of jobs still to come are as they were before the render. */
  ghost predicate Pending<V>(plan: Plan, order: seq<nat>, k: nat, was: map<TileLocation, V>, now: map<TileLocation, V>)
    requires EachOnce(order, |plan.tiles|)
  {
    forall j :: k <= j < |order| ==> SameAt(was, now, plan.Location(order[j]))
  }

  lemma LocationsDiffer(plan: Plan, order: seq<nat>, j: nat, k: nat)
    requires plan.Valid() && EachOnce(order, |plan.tiles|) && j < |order| && k < |order| && j != k
    ensures plan.Location(order[j]) != plan.Location(order[k])
  {
    var a, b := order[j], order[k];
    assert a != b;
    assert if a < b then plan.tiles[a].pos != plan.tiles[b].pos else plan.tiles[b].pos != plan.tiles[a].pos;
  }

  lemma PendingNext<V>(plan: Plan, order: seq<nat>, k: nat, was: map<TileLocation, V>, now: map<TileLocation, V>, next: map<TileLocation, V>)
    requires plan.Valid() && EachOnce(order, |plan.tiles|) && k < |order| && Pending(plan, order, k, was, now)
    requires SameElsewhere(next, now, plan.Location(order[k]))
    ensures Pending(plan, order, k + 1, was, next)
  {
    forall j | k + 1 <= j < |order| ensures SameAt(was, next, plan.Location(order[j])) {
      LocationsDiffer(plan, order, j, k);
      assert SameAt(was, now, plan.Location(order[j]));
    }
  }

  lemma OwnBytesSame(plan: Plan, i: nat, bytes: seq<Byte>, entries: map<TileLocation, CacheEntry>, tiles: map<TileLocation, Tile>,
                     entries': map<TileLocation, CacheEntry>, tiles': map<TileLocation, Tile>)
    requires plan.Valid() && i < |plan.tiles| && OwnBytes(plan, i, bytes, entries, tiles)
    requires SameAt(entries', entries, plan.Location(i)) && SameAt(tiles', tiles, plan.Location(i))
    ensures OwnBytes(plan, i, bytes, entries', tiles')
  {
    hide IsDelta, FlatBytes, WireTile;
  }

  /** The pictures of the jobs done are cached. */
  ghost predicate Cached(plan: Plan, order: seq<nat>, k: nat, entries: map<TileLocation, CacheEntry>, tiles: map<TileLocation, Tile>)
    requires plan.Valid() && EachOnce(order, |plan.tiles|) && k <= |order|
  {
    forall j :: 0 <= j < k ==> IsCached(plan, order[j], entries, tiles)
  }

  lemma CachedNext(plan: Plan, order: seq<nat>, k: nat, entries: map<TileLocation, CacheEntry>, tiles: map<TileLocation, Tile>,
                   entries': map<TileLocation, CacheEntry>, tiles': map<TileLocation, Tile>)
    requires plan.Valid() && EachOnce(order, |plan.tiles|) && k < |order| && Cached(plan, order, k, entries, tiles)
    requires SameElsewhere(tiles', tiles, plan.Location(order[k])) && SameElsewhere(entries', entries, plan.Location(order[k]))
    requires IsCached(plan, order[k], entries', tiles')
    ensures Cached(plan, order, k + 1, entries', tiles')
  {
    hide plan.Picture;
    forall j | 0 <= j < k + 1 ensures IsCached(plan, order[j], entries', tiles') {
      if j < k {
        LocationsDiffer(plan, order, j, k);
        assert IsCached(plan, order[j], entries, tiles);
      }
    }
  }

  /** Locations that are not those of the plan are as they were. */
  ghost predicate Untouched<V>(plan: Plan, was: map<TileLocation, V>, now: map<TileLocation, V>) {
    forall loc :: (forall i :: 0 <= i < |plan.tiles| ==> plan.Location(i) != loc) ==> SameAt(was, now, loc)
  }

  lemma UntouchedNext<V>(plan: Plan, i: nat, was: map<TileLocation, V>, now: map<TileLocation, V>, next: map<TileLocation, V>)
    requires i < |plan.tiles| && Untouched(plan, was, now) && SameElsewhere(next, now, plan.Location(i))
    ensures Untouched(plan, was, next)
  {
    forall loc | forall i :: 0 <= i < |plan.tiles| ==> plan.Location(i) != loc ensures SameAt(was, next, loc) {
      assert plan.Location(i) != loc;
      assert SameAt(was, now, loc);
    }
  }

  /** Each part of the output is the bytes of the tile that is noted for it. */
  ghost predicate OwnParts(plan: Plan, order: seq<nat>, k: nat, parts: seq<seq<Byte>>, rendered: seq<Rendered>,
                           entries: map<TileLocation, CacheEntry>, tiles: map<TileLocation, Tile>)
    requires plan.Valid() && EachOnce(order, |plan.tiles|) && k <= |order|
  {
    && |parts| == |rendered| == k
    && forall j :: 0 <= j < k ==> rendered[j].tile == order[j] && OwnBytes(plan, order[j], parts[j], entries, tiles)
  }

  /** Runs the jobs, in whatever order they end, and appends what they yield. */
  method RunJobs(gen: Generator, plan: Plan, order: seq<nat>, hasAvx2: bool) returns (out: SharedOutput)
    requires gen.Valid() && plan.Valid() && EachOnce(order, |plan.tiles|)
    modifies gen
    ensures gen.Valid() && gen.maxEntries == old(gen.maxEntries)
    ensures fresh(out) && out.Valid()
    ensures OwnParts(plan, order, |order|, out.parts, out.renderedTiles, old(gen.entries), old(gen.tiles))
    ensures plan.pixelWidth % 2 == 0 ==> Cached(plan, order, |order|, gen.entries, gen.tiles)
    ensures Untouched(plan, old(gen.entries), gen.entries) && Untouched(plan, old(gen.tiles), gen.tiles)
  {
    hide plan.Valid, gen.Valid, OwnBytes, Pending, Cached, IsCached, SameElsewhere, EachOnce, Untouched;
    out := new SharedOutput();
    ghost var entries, tiles := gen.entries, gen.tiles;
    NothingDone(plan, order, entries, tiles);
    for k := 0 to |order|
      invariant gen.Valid() && gen.maxEntries == old(gen.maxEntries) && fresh(out) && out.Valid()
      invariant Pending(plan, order, k, entries, gen.entries) && Pending(plan, order, k, tiles, gen.tiles)
      invariant OwnParts(plan, order, k, out.parts, out.renderedTiles, entries, tiles)
      invariant plan.pixelWidth % 2 == 0 ==> Cached(plan, order, k, gen.entries, gen.tiles)
      invariant Untouched(plan, entries, gen.entries) && Untouched(plan, tiles, gen.tiles)
    {
      JobExists(plan, order, k);
      ghost var e, t := gen.entries, gen.tiles;
      var data := Job(gen, plan, order[k], hasAvx2);
      PendingNow(plan, order, k, entries, e);
      PendingNow(plan, order, k, tiles, t);
      OwnBytesSame(plan, order[k], data, e, t, entries, tiles);
      PendingNext(plan, order, k, entries, e, gen.entries);
      PendingNext(plan, order, k, tiles, t, gen.tiles);
      if plan.pixelWidth % 2 == 0 {
        CachedNext(plan, order, k, e, t, gen.entries, gen.tiles);
      }
      UntouchedNext(plan, order[k], entries, e, gen.entries);
      UntouchedNext(plan, order[k], tiles, t, gen.tiles);
      out.Append(order[k], data);
    }
  }

  lemma JobExists(plan: Plan, order: seq<nat>, k: nat)
    requires EachOnce(order, |plan.tiles|) && k < |order|
    ensures order[k] < |plan.tiles|
  {
  }

  lemma PendingNow<V>(plan: Plan, order: seq<nat>, k: nat, was: map<TileLocation, V>, now: map<TileLocation, V>)
    requires EachOnce(order, |plan.tiles|) && k < |order| && Pending(plan, order, k, was, now)
    ensures SameAt(was, now, plan.Location(order[k]))
  {
  }

  lemma NothingDone(plan: Plan, order: seq<nat>, entries: map<TileLocation, CacheEntry>, tiles: map<TileLocation, Tile>)
    requires plan.Valid() && EachOnce(order, |plan.tiles|)
    ensures Pending(plan, order, 0, entries, entries) && Pending(plan, order, 0, tiles, tiles) && Cached(plan, order, 0, entries, tiles)
    ensures Untouched(plan, entries, entries) && Untouched(plan, tiles, tiles)
  {
  }

  function Positions(tiles: seq<Request>): (ps: seq<Position>)
    ensures |ps| == |tiles|
  {
    seq(|tiles|, i requires 0 <= i < |tiles| => tiles[i].pos)
  }

  /** The location is that of a tile of this render: its part, view, tile size and place. */
  ghost predicate OfRender(loc: TileLocation, tiles: seq<Request>, tileWidth: nat, part: int, viewId: int) {
    && loc.part == part && loc.canonicalViewId == viewId && loc.size == tileWidth
    && exists i :: 0 <= i < |tiles| && loc.left == tiles[i].pos.x && loc.top == tiles[i].pos.y
  }

  /**
   * For every list of different tiles, whatever is painted and in whatever order the jobs end: one
   * message for each tile, with the keyframe or delta of that tile's own rectangle of the pixmap
   * against what was cached for it; all pictures are cached then, at even widths; and what is
   * cached for other parts, views, sizes and places stays.
   */
  method DoRender(gen: Generator, tiles: seq<Request>, tileWidth: nat, tileHeight: nat, pixelWidth: nat, pixelHeight: nat,
                  part: int, viewId: int, mode: TileMode, paint: (Rectangle, nat, nat) -> seq<Pixel>, order: seq<nat>, hasAvx2: bool)
    returns (messages: seq<(nat, seq<Byte>)>, ghost area: Rectangle, ghost pictures: seq<Tile>)
    requires gen.Valid() && tiles != [] && tileWidth > 0 && tileHeight > 0
    requires 0 < pixelWidth <= 256 && 0 < pixelHeight <= 256 && EachOnce(order, |tiles|)
    requires forall i, j :: 0 <= i < j < |tiles| ==> tiles[i].pos != tiles[j].pos
    requires forall a, w: nat, h: nat :: |paint(a, w, h)| == h * w
    modifies gen
    ensures gen.Valid() && IsHull(area, Positions(tiles), tileWidth, tileHeight) && |pictures| == |tiles|
    ensures forall i :: 0 <= i < |tiles| ==>
      Shows(pictures[i], tiles[i].pos, area, tileWidth, tileHeight, pixelWidth, pixelHeight, paint)
    ensures |messages| == |tiles| && forall k :: 0 <= k < |tiles| ==> messages[k].0 == order[k]
    ensures forall k :: 0 <= k < |tiles| ==> var i := order[k];
      Sends(messages[k].1, TileLocation(tiles[i].pos.x, tiles[i].pos.y, tileWidth, part, viewId), pictures[i], tiles[i].forceKeyframe,
            pixelWidth, pixelHeight, mode, old(gen.entries), old(gen.tiles))
    ensures pixelWidth % 2 == 0 ==> forall i :: 0 <= i < |tiles| ==>
      var loc := TileLocation(tiles[i].pos.x, tiles[i].pos.y, tileWidth, part, viewId);
      loc in gen.tiles && gen.tiles[loc] == pictures[i] && loc in gen.entries && gen.entries[loc].wid == tiles[i].wid
    ensures forall loc :: !OfRender(loc, tiles, tileWidth, part, viewId) ==>
      SameAt(old(gen.entries), gen.entries, loc) && SameAt(old(gen.tiles), gen.tiles, loc)
  {
    hide gen.Valid, Sends, Cached, Untouched, IsHull, Shows, OfRender, Plan.Valid, Plan.Picture, SameAt;
    var plan;
    plan, area, pictures := MakePlan(tiles, tileWidth, tileHeight, pixelWidth, pixelHeight, part, viewId, mode, paint);
    var out := RunJobs(gen, plan, order, hasAvx2);
    messages := out.Slice();
    if pixelWidth % 2 == 0 {
      AllCached(plan, order, gen.entries, gen.tiles);
      CachedSays(plan, gen.entries, gen.tiles, pictures);
    }
    OthersUntouched(plan, old(gen.entries), gen.entries);
    OthersUntouched(plan, old(gen.tiles), gen.tiles);
    PartsSay(plan, order, out.parts, out.renderedTiles, old(gen.entries), old(gen.tiles), pictures);
  }

  lemma PartsSay(plan: Plan, order: seq<nat>, parts: seq<seq<Byte>>, rendered: seq<Rendered>,
                 entries: map<TileLocation, CacheEntry>, tiles: map<TileLocation, Tile>, pictures: seq<Tile>)
    requires plan.Valid() && EachOnce(order, |plan.tiles|) && OwnParts(plan, order, |order|, parts, rendered, entries, tiles)
    requires |pictures| == |plan.tiles| && forall i :: 0 <= i < |pictures| ==> pictures[i] == plan.Picture(i)
    ensures forall k :: 0 <= k < |order| ==> var i := order[k];
      Sends(parts[k], TileLocation(plan.tiles[i].pos.x, plan.tiles[i].pos.y, plan.tileWidth, plan.part, plan.viewId), pictures[i],
            plan.tiles[i].forceKeyframe, plan.pixelWidth, plan.pixelHeight, plan.mode, entries, tiles)
  {
    hide Sends, Plan.Picture;
  }

  lemma CachedSays(plan: Plan, entries: map<TileLocation, CacheEntry>, tiles: map<TileLocation, Tile>, pictures: seq<Tile>)
    requires plan.Valid() && forall i :: 0 <= i < |plan.tiles| ==> IsCached(plan, i, entries, tiles)
    requires |pictures| == |plan.tiles| && forall i :: 0 <= i < |pictures| ==> pictures[i] == plan.Picture(i)
    ensures forall i :: 0 <= i < |plan.tiles| ==>
      var loc := TileLocation(plan.tiles[i].pos.x, plan.tiles[i].pos.y, plan.tileWidth, plan.part, plan.viewId);
      loc in tiles && tiles[loc] == pictures[i] && loc in entries && entries[loc].wid == plan.tiles[i].wid
  {
    hide Plan.Picture;
    forall i | 0 <= i < |plan.tiles|
      ensures var loc := TileLocation(plan.tiles[i].pos.x, plan.tiles[i].pos.y, plan.tileWidth, plan.part, plan.viewId);
        loc in tiles && tiles[loc] == pictures[i] && loc in entries && entries[loc].wid == plan.tiles[i].wid
    {
      assert IsCached(plan, i, entries, tiles);
    }
  }

  /** Lays out the tiles and paints the area around them. */
  method MakePlan(tiles: seq<Request>, tileWidth: nat, tileHeight: nat, pixelWidth: nat, pixelHeight: nat,
                  part: int, viewId: int, mode: TileMode, paint: (Rectangle, nat, nat) -> seq<Pixel>)
    returns (plan: Plan, ghost area: Rectangle, ghost pictures: seq<Tile>)
    requires tiles != [] && tileWidth > 0 && tileHeight > 0 && 0 < pixelWidth <= 256 && 0 < pixelHeight <= 256
    requires forall i, j :: 0 <= i < j < |tiles| ==> tiles[i].pos != tiles[j].pos
    requires forall a, w: nat, h: nat :: |paint(a, w, h)| == h * w
    ensures plan.Valid() && plan.tiles == tiles && plan.tileWidth == tileWidth && plan.part == part && plan.viewId == viewId
    ensures plan.pixelWidth == pixelWidth && plan.pixelHeight == pixelHeight && plan.mode == mode
    ensures IsHull(area, Positions(tiles), tileWidth, tileHeight)
    ensures |pictures| == |tiles| && forall i :: 0 <= i < |tiles| ==> pictures[i] == plan.Picture(i)
    ensures forall i :: 0 <= i < |tiles| ==>
      Shows(pictures[i], tiles[i].pos, area, tileWidth, tileHeight, pixelWidth, pixelHeight, paint)
  {
    hide TilePixels, Shows;
    var positions := Positions(tiles);
    var renderArea, width, height, rects := Layout(positions, tileWidth, tileHeight, pixelWidth, pixelHeight);
    plan := Plan(tiles, rects, paint(renderArea, width, height), width, height, tileWidth, part, viewId, pixelWidth, pixelHeight, mode);
    area := renderArea;
    forall i | 0 <= i < |tiles|
      ensures positions[i] == tiles[i].pos && area.x1 <= tiles[i].pos.x && tiles[i].pos.x + tileWidth <= area.x2
      ensures area.y1 <= tiles[i].pos.y && tiles[i].pos.y + tileHeight <= area.y2
    {
      assert area.x1 <= positions[i].x && area.y1 <= positions[i].y;
    }
    hide IsHull;
    forall i | 0 <= i < |tiles| ensures plan.Placed(rects[i]) {
      RectSize(positions[i], area, tileWidth, tileHeight, pixelWidth, pixelHeight);
    }
    pictures := seq(|tiles|, i requires 0 <= i < |tiles| => plan.Picture(i));
    forall i | 0 <= i < |tiles| ensures Shows(pictures[i], tiles[i].pos, area, tileWidth, tileHeight, pixelWidth, pixelHeight, paint) {
      PictureShows(plan, i, area, tileHeight, paint);
    }
  }

  /** The picture of a tile is what was painted of the area, from where the tile lies in it. */
  ghost predicate Shows(picture: Tile, p: Position, area: Rectangle, tileWidth: nat, tileHeight: nat, pixelWidth: nat, pixelHeight: nat,
                        paint: (Rectangle, nat, nat) -> seq<Pixel>)
    requires tileWidth > 0 && tileHeight > 0
  {
    && area.x1 <= p.x && p.x + tileWidth <= area.x2 && area.y1 <= p.y && p.y + tileHeight <= area.y2
    && var width, height := (area.x2 - area.x1) / tileWidth * pixelWidth, (area.y2 - area.y1) / tileHeight * pixelHeight;
       var startX, startY := (p.x - area.x1) / tileWidth * pixelWidth, (p.y - area.y1) / tileHeight * pixelHeight;
       0 <= width && 0 <= height && IsPart(picture, paint(area, width, height), width, startX, startY, pixelWidth, pixelHeight)
  }

  /** Pixel by pixel, a picture is part of a pixmap of some width. */
  ghost predicate IsPart(picture: Tile, pixmap: seq<Pixel>, width: int, startX: int, startY: int, pixelWidth: nat, pixelHeight: nat) {
    && Sized(picture, pixelWidth, pixelHeight)
    && forall x, y :: 0 <= x < pixelWidth && 0 <= y < pixelHeight ==> PixelIs(picture[y][x], pixmap, (startY + y) * width + (startX + x))
  }

  ghost predicate PixelIs(p: Pixel, pixmap: seq<Pixel>, at: int) { 0 <= at < |pixmap| && pixmap[at] == p }

  lemma PictureShows(plan: Plan, i: nat, area: Rectangle, tileHeight: nat, paint: (Rectangle, nat, nat) -> seq<Pixel>)
    requires plan.Valid() && i < |plan.tiles| && plan.tileWidth > 0 && tileHeight > 0 && plan.pixmap == paint(area, plan.width, plan.height)
    requires var p := plan.tiles[i].pos;
      area.x1 <= p.x && p.x + plan.tileWidth <= area.x2 && area.y1 <= p.y && p.y + tileHeight <= area.y2
    requires plan.width == (area.x2 - area.x1) / plan.tileWidth * plan.pixelWidth
    requires plan.height == (area.y2 - area.y1) / tileHeight * plan.pixelHeight
    requires plan.rects[i] == TilePixels(plan.tiles[i].pos, area, plan.tileWidth, tileHeight, plan.pixelWidth, plan.pixelHeight)
    ensures Shows(plan.Picture(i), plan.tiles[i].pos, area, plan.tileWidth, tileHeight, plan.pixelWidth, plan.pixelHeight, paint)
  {
    hide IsPart, Plan.Valid, Plan.Picture, TilePixels;
    PartOf(plan, i);
    Cells(plan.tiles[i].pos, area, plan.tileWidth, tileHeight, plan.pixelWidth, plan.pixelHeight);
  }

  lemma PartOf(plan: Plan, i: nat)
    requires plan.Valid() && i < |plan.tiles|
    ensures i < |plan.rects| && var r := plan.rects[i];
      IsPart(plan.Picture(i), plan.pixmap, plan.width, r.x1, r.y1, plan.pixelWidth, plan.pixelHeight)
  {
    hide PixmapTile, PixelIs;
    var r := plan.rects[i];
    forall x, y | 0 <= x < plan.pixelWidth && 0 <= y < plan.pixelHeight
      ensures PixelIs(plan.Picture(i)[y][x], plan.pixmap, (r.y1 + y) * plan.width + (r.x1 + x))
    {
      PixelOf(plan, i, x, y);
    }
  }

  lemma PixelOf(plan: Plan, i: nat, x: nat, y: nat)
    requires plan.Valid() && i < |plan.tiles| && x < plan.pixelWidth && y < plan.pixelHeight
    ensures var r := plan.rects[i]; PixelIs(plan.Picture(i)[y][x], plan.pixmap, (r.y1 + y) * plan.width + (r.x1 + x))
  {
    hide PixmapTile;
    var r := plan.rects[i];
    PixmapAt(plan.pixmap, plan.width, plan.height, r.x1, r.y1, plan.pixelWidth, plan.pixelHeight, x, y);
  }

  lemma Cells(p: Position, area: Rectangle, tileWidth: nat, tileHeight: nat, pixelWidth: nat, pixelHeight: nat)
    requires tileWidth > 0 && tileHeight > 0 && area.x1 <= p.x && area.y1 <= p.y
    ensures var r := TilePixels(p, area, tileWidth, tileHeight, pixelWidth, pixelHeight);
      r.x1 == (p.x - area.x1) / tileWidth * pixelWidth && r.y1 == (p.y - area.y1) / tileHeight * pixelHeight
  {
  }

  lemma OthersUntouched<V>(plan: Plan, was: map<TileLocation, V>, now: map<TileLocation, V>)
    requires Untouched(plan, was, now)
    ensures forall loc :: !OfRender(loc, plan.tiles, plan.tileWidth, plan.part, plan.viewId) ==> SameAt(was, now, loc)
  {
  }

  lemma RectSize(p: Position, area: Rectangle, tileWidth: nat, tileHeight: nat, pixelWidth: nat, pixelHeight: nat)
    requires area.x1 <= p.x && area.y1 <= p.y && tileWidth > 0 && tileHeight > 0
    ensures var r := TilePixels(p, area, tileWidth, tileHeight, pixelWidth, pixelHeight); r.x2 == r.x1 + pixelWidth && r.y2 == r.y1 + pixelHeight
  {
  }

  /** Jobs that are all different and as many as there are tiles leave out none. */
  lemma AllCached(plan: Plan, order: seq<nat>, entries: map<TileLocation, CacheEntry>, tiles: map<TileLocation, Tile>)
    requires plan.Valid() && EachOnce(order, |plan.tiles|) && Cached(plan, order, |order|, entries, tiles)
    ensures forall i :: 0 <= i < |plan.tiles| ==> IsCached(plan, i, entries, tiles)
  {
    hide IsCached;
    forall i | 0 <= i < |plan.tiles| ensures IsCached(plan, i, entries, tiles) {
      var k := Hit(order, |plan.tiles|, i);
      assert IsCached(plan, order[k], entries, tiles);
    }
  }

  lemma Hit(order: seq<nat>, n: nat, i: nat) returns (k: nat)
    requires EachOnce(order, n) && i < n
    ensures k < n && order[k] == i
  {
    var taken := set j | 0 <= j < n :: order[j];
    Injective(order, n);
    Full(taken, n);
    assert i in taken;
    k :| 0 <= k < n && order[k] == i;
  }

  lemma {:induction false} Injective(order: seq<nat>, n: nat)
    requires n <= |order| && forall j, k :: 0 <= j < k < n ==> order[j] != order[k]
    ensures |set j | 0 <= j < n :: order[j]| == n
  {
    if n > 0 {
      Injective(order, n - 1);
      var fewer := set j | 0 <= j < n - 1 :: order[j];
      assert (set j | 0 <= j < n :: order[j]) == fewer + {order[n - 1]};
    }
  }

  lemma {:induction false} Full(taken: set<nat>, n: nat)
    requires |taken| == n && forall i :: i in taken ==> i < n
    ensures forall i :: 0 <= i < n ==> i in taken
  {
    if n > 0 {
      if n - 1 in taken {
        Full(taken - {n - 1}, n - 1);
      } else {
        TooMany(taken, n - 1);
      }
    }
  }

  lemma {:induction false} TooMany(taken: set<nat>, n: nat)
    requires forall i :: i in taken ==> i < n
    ensures |taken| <= n
  {
    if n > 0 {
      var rest := taken - {n - 1};
      TooMany(rest, n - 1);
      assert taken <= rest + {n - 1};
    }
  }
}
