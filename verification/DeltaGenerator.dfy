/** The delta generator as one thread sees it (kit/Delta.hpp): its cache, and what each call sends. */
module DeltaGenerator {
  import opened Arith
  import opened Wrappers
  import opened Pixels
  import opened DeltaRow
  import opened DeltaClient
  import opened DeltaTile
  import opened DeltaStream
  import DeltaSimd

  datatype CacheEntry = CacheEntry(wid: nat, data: DeltaData)

  /** Row y of the pixmap, from column x on. */
  function PixmapRow(pixmap: seq<Pixel>, bufferWidth: nat, bufferHeight: nat, x: nat, y: nat, width: nat): (r: PixelRow)
    requires |pixmap| == bufferHeight * bufferWidth && x + width <= bufferWidth && y < bufferHeight
    ensures |r| == width
  {
    RowInside(bufferWidth, bufferHeight, x, y, width);
    pixmap[y * bufferWidth + x .. y * bufferWidth + x + width]
  }

  /** The tile that starts at column x and row y of the pixmap. */
  function PixmapTile(pixmap: seq<Pixel>, bufferWidth: nat, bufferHeight: nat, x: nat, y: nat, width: nat, height: nat): (t: Tile)
    requires |pixmap| == bufferHeight * bufferWidth && x + width <= bufferWidth && y + height <= bufferHeight
    ensures Sized(t, width, height)
    decreases height
  {
    if height == 0 then []
    else [PixmapRow(pixmap, bufferWidth, bufferHeight, x, y, width)]
         + PixmapTile(pixmap, bufferWidth, bufferHeight, x, y + 1, width, height - 1)
  }

  lemma {:induction false} PixmapRowAt(pixmap: seq<Pixel>, bufferWidth: nat, bufferHeight: nat, startX: nat, startY: nat, width: nat, height: nat, y: nat)
    requires |pixmap| == bufferHeight * bufferWidth && startX + width <= bufferWidth && startY + height <= bufferHeight && y < height
    ensures PixmapTile(pixmap, bufferWidth, bufferHeight, startX, startY, width, height)[y]
            == PixmapRow(pixmap, bufferWidth, bufferHeight, startX, startY + y, width)
    decreases height
  {
    hide PixmapRow;
    if y > 0 {
      PixmapRowAt(pixmap, bufferWidth, bufferHeight, startX, startY + 1, width, height - 1, y - 1);
    }
  }

  /** Pixel x of row y of the tile is that of the pixmap, as far from where the tile starts. */
  lemma PixmapAt(pixmap: seq<Pixel>, bufferWidth: nat, bufferHeight: nat, startX: nat, startY: nat, width: nat, height: nat, x: nat, y: nat)
    requires |pixmap| == bufferHeight * bufferWidth && startX + width <= bufferWidth && startY + height <= bufferHeight
    requires x < width && y < height
    ensures var at := (startY + y) * bufferWidth + (startX + x);
      at < |pixmap| && PixmapTile(pixmap, bufferWidth, bufferHeight, startX, startY, width, height)[y][x] == pixmap[at]
  {
    hide PixmapTile;
    PixmapRowAt(pixmap, bufferWidth, bufferHeight, startX, startY, width, height, y);
    RowInside(bufferWidth, bufferHeight, startX, startY + y, width);
    InRow(pixmap, (startY + y) * bufferWidth, startX, width, x);
  }

  lemma InRow(pixmap: seq<Pixel>, base: nat, startX: nat, width: nat, x: nat)
    requires base + startX + width <= |pixmap| && x < width
    ensures pixmap[base + startX .. base + startX + width][x] == pixmap[base + (startX + x)]
  {
  }

  /** The entry of lowest wire id among some locations. */
  method Oldest(entries: map<TileLocation, CacheEntry>, among: set<TileLocation>) returns (loc: TileLocation)
    requires among != {} && among <= entries.Keys
    ensures loc in among && forall k :: k in among ==> entries[loc].wid <= entries[k].wid
  {
    loc :| loc in among;
    var todo := among - {loc};
    while todo != {}
      invariant todo <= among && loc in among
      invariant forall k :: k in among && k !in todo ==> entries[loc].wid <= entries[k].wid
      decreases |todo|
    {
      var k :| k in todo;
      if entries[k].wid < entries[loc].wid {
        loc := k;
      }
      todo := todo - {k};
    }
  }

  /** Encodes the rows of a tile. */
  method EncodeTile(tile: Tile, width: nat, height: nat, hasAvx2: bool) returns (data: DeltaData)
    requires Sized(tile, width, height) && width <= 256 && height <= 256
    ensures Holds(data, tile) && data.width == width && data.height == height
  {
    var rows := [];
    for y := 0 to height
      invariant |rows| == y && forall i :: 0 <= i < y ==> Encodes(rows[i], tile[i])
    {
      var row := DeltaSimd.InitRow(tile[y], hasAvx2);
      rows := rows + [row];
    }
    data := DeltaData(width, height, rows);
  }

  /** For all pairs of tiles: what the encoder sends takes a client from the one to the other, and is nothing exactly if they are equal. */
  method DeltaRoundTrip(prev: Tile, cur: Tile, width: nat, height: nat, mode: TileMode, hasAvx2: bool) returns (payload: seq<Byte>)
    requires Sized(prev, width, height) && Sized(cur, width, height) && width <= 256 && height <= 256
    ensures payload == [] <==> prev == cur
    ensures forall show: Pixel -> Pixel ::
      ApplyDeltas(show, payload, MapTile(show, WireTile(prev, mode))) == Some(MapTile(show, WireTile(cur, mode)))
  {
    hide Holds, DeltaOf, IsDelta, MapTile, ApplyDeltas;
    var held := EncodeTile(prev, width, height, hasAvx2);
    var next := EncodeTile(cur, width, height, hasAvx2);
    ghost var recs;
    var ok;
    ok, payload, recs := MakeDelta(held, prev, next, cur, mode);
    DeltaIs(payload, recs, WireTile(prev, mode), WireTile(cur, mode), width, height);
    forall show: Pixel -> Pixel
      ensures ApplyDeltas(show, payload, MapTile(show, WireTile(prev, mode))) == Some(MapTile(show, WireTile(cur, mode)))
    {
      DeltaReceived(show, payload, WireTile(prev, mode), WireTile(cur, mode), width, height, []);
      assert payload + [] == payload;
      NoDeltas(show, MapTile(show, WireTile(cur, mode)));
    }
  }

  lemma NoDeltas(show: Pixel -> Pixel, canvas: Tile)
    ensures ApplyDeltas(show, [], canvas) == Some(canvas)
  {
  }

  /** A delta can be made: an entry of the same, even width and height is cached, and no keyframe is asked for. */
  predicate DeltaDue(entries: map<TileLocation, CacheEntry>, loc: TileLocation, forceKeyframe: bool, width: nat, height: nat) {
    && width % 2 == 0 && loc in entries && !forceKeyframe
    && entries[loc].data.width == width && entries[loc].data.height == height
  }

  /** At most the entry of one location differs. */
  ghost predicate SameElsewhere<V>(a: map<TileLocation, V>, b: map<TileLocation, V>, loc: TileLocation) {
    forall k :: k != loc ==> (k in a <==> k in b) && (k in a ==> a[k] == b[k])
  }

  class Generator {
    var entries: map<TileLocation, CacheEntry>
    var maxEntries: nat
    ghost var tiles: map<TileLocation, Tile>  // the pixels each entry stands for

    ghost predicate Valid()
      reads this
    {
      entries.Keys == tiles.Keys && forall loc :: loc in entries ==> Holds(entries[loc].data, tiles[loc])
    }

    constructor ()
      ensures Valid() && entries == map[] && maxEntries == 0
    {
      entries, maxEntries, tiles := map[], 0, map[];
    }

    /** A delta if there is a cached tile of the same size to work from; remembers the tile, except at odd widths. */
    method CreateDelta(tile: Tile, width: nat, height: nat, loc: TileLocation, wid: nat, forceKeyframe: bool,
                       mode: TileMode, hasAvx2: bool)
      returns (delta: Option<seq<Byte>>)
      requires Valid() && Sized(tile, width, height) && width <= 256 && height <= 256
      modifies this
      ensures Valid() && maxEntries == old(maxEntries)
      ensures width % 2 == 1 ==> delta.None? && entries == old(entries) && tiles == old(tiles)
      ensures width % 2 == 0 ==> tiles == old(tiles)[loc := tile]
      ensures width % 2 == 0 ==> loc in entries && entries[loc].wid == wid
      ensures SameElsewhere(entries, old(entries), loc)
      ensures delta.Some? <==> DeltaDue(old(entries), loc, forceKeyframe, width, height)
      ensures delta.Some? ==>
        && loc in old(tiles) && (delta.value == [] <==> old(tiles)[loc] == tile)
        && IsDelta(delta.value, WireTile(old(tiles)[loc], mode), WireTile(tile, mode), width, height)
    {
      hide Holds, IsDelta, DeltaOf;
      if width % 2 != 0 {
        return None;
      }
      delta := None;
      var update := EncodeTile(tile, width, height, hasAvx2);
      if loc in entries && !forceKeyframe {
        ghost var recs;
        var ok, payload;
        ok, payload, recs := MakeDelta(entries[loc].data, tiles[loc], update, tile, mode);
        if ok {
          delta := Some(payload);
          DeltaIs(payload, recs, WireTile(tiles[loc], mode), WireTile(tile, mode), width, height);
        }
      }
      entries := entries[loc := CacheEntry(wid, update)];
      tiles := tiles[loc := tile];
    }

    /** What goes out for a tile of the pixmap: a delta where there is one, and else the whole tile. */
    method CompressOrDelta(pixmap: seq<Pixel>, startX: nat, startY: nat, width: nat, height: nat,
                           bufferWidth: nat, bufferHeight: nat, loc: TileLocation, wid: nat, forceKeyframe: bool,
                           mode: TileMode, hasAvx2: bool)
      returns (m: Message)
      requires Valid() && width <= 256 && height <= 256
      requires |pixmap| == bufferHeight * bufferWidth && startX + width <= bufferWidth && startY + height <= bufferHeight
      modifies this
      ensures Valid() && maxEntries == old(maxEntries)
      ensures m.Delta? <==> DeltaDue(old(entries), loc, forceKeyframe, width, height)
      ensures SameElsewhere(entries, old(entries), loc) && (width % 2 == 0 ==> loc in entries && entries[loc].wid == wid)
      ensures var tile := PixmapTile(pixmap, bufferWidth, bufferHeight, startX, startY, width, height);
        && tiles == (if width % 2 == 0 then old(tiles)[loc := tile] else old(tiles))
        && match m
           case Keyframe(w, h, bytes) => w == width && h == height && bytes == FlatBytes(WireTile(tile, mode))
           case Delta(bytes) => loc in old(tiles) && IsDelta(bytes, WireTile(old(tiles)[loc], mode), WireTile(tile, mode), width, height)
    {
      hide IsDelta, FlatBytes, Valid;
      var tile := PixmapTile(pixmap, bufferWidth, bufferHeight, startX, startY, width, height);
      var delta := CreateDelta(tile, width, height, loc, wid, forceKeyframe, mode, hasAvx2);
      if delta.Some? {
        m := Delta(delta.value);
      } else {
        var bytes := KeyframeBytes(tile, mode);
        m := Keyframe(width, height, bytes);
      }
    }

    /** Drops the entries of lowest wire id until three quarters of the limit are left, or all of them. */
    method RebalanceDeltas(dropAll: bool)
      requires Valid()
      modifies this
      ensures Valid() && maxEntries == old(maxEntries)
      ensures NewestOf(entries, old(entries))
      ensures |entries| == if dropAll then 0 else if |old(entries)| > maxEntries then maxEntries * 3 / 4 else |old(entries)|
    {
      hide Holds, NewestOf;
      AllAreNewest(entries);
      if |entries| > maxEntries || dropAll {
        var toRemove := |entries|;
        if !dropAll {
          toRemove := toRemove - maxEntries * 3 / 4;
        }
        var size := |entries|;
        for i := 0 to toRemove
          invariant Valid() && maxEntries == old(maxEntries) && |entries| == size - i && NewestOf(entries, old(entries))
        {
          var loc := Oldest(entries, entries.Keys);
          DropOldest(entries, old(entries), loc);
          entries, tiles := entries - {loc}, tiles - {loc};
        }
      }
    }
  }

  /** Some of all entries, unchanged, and no entry left out is newer than one of them. */
  ghost predicate NewestOf(entries: map<TileLocation, CacheEntry>, all: map<TileLocation, CacheEntry>) {
    && (forall k :: k in entries ==> k in all && entries[k] == all[k])
    && forall kept, dropped :: kept in entries && dropped in all && dropped !in entries ==> all[dropped].wid <= entries[kept].wid
  }

  lemma AllAreNewest(all: map<TileLocation, CacheEntry>)
    ensures NewestOf(all, all)
  {
  }

  lemma DropOldest(entries: map<TileLocation, CacheEntry>, all: map<TileLocation, CacheEntry>, loc: TileLocation)
    requires NewestOf(entries, all) && loc in entries && forall k :: k in entries ==> entries[loc].wid <= entries[k].wid
    ensures NewestOf(entries - {loc}, all) && |entries - {loc}| == |entries| - 1
  {
    MapMinus(entries, loc);
  }

  lemma DeltaIs(payload: seq<Byte>, recs: seq<Record>, held: Tile, next: Tile, width: nat, height: nat)
    requires DeltaOf(payload, recs, held, next, width, height)
    ensures IsDelta(payload, held, next, width, height)
  {
  }

  lemma MapMinus<K, V>(m: map<K, V>, k: K)
    requires k in m
    ensures |m - {k}| == |m| - 1
  {
    assert (m - {k}).Keys == m.Keys - {k};
  }
}
