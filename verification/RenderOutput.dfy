/** Where tiles lie in the shared pixmap, and how their bytes share one output (common/RenderTiles.hpp). */
module RenderOutput {
  import opened Pixels
  import opened Arith

  /** Util::Rectangle (common/Rectangle.hpp): two corners. */
  datatype Rectangle = Rectangle(x1: int, y1: int, x2: int, y2: int) {
    function Width(): int { x2 - x1 }

    function Height(): int { y2 - y1 }

    function Extend(r: Rectangle): (e: Rectangle)
      ensures e.x1 <= x1 && e.x1 <= r.x1 && x2 <= e.x2 && r.x2 <= e.x2
      ensures e.y1 <= y1 && e.y1 <= r.y1 && y2 <= e.y2 && r.y2 <= e.y2
    {
      Rectangle(if r.x1 < x1 then r.x1 else x1, if r.y1 < y1 then r.y1 else y1,
                if r.x2 > x2 then r.x2 else x2, if r.y2 > y2 then r.y2 else y2)
    }

    predicate Overlaps(r: Rectangle) {
      x1 < r.x2 && r.x1 < x2 && y1 < r.y2 && r.y1 < y2
    }
  }

  /** Which cell of the pixmap's grid a coordinate falls into. */
  function Cell(at: int, origin: int, size: int): nat
    requires origin <= at && size > 0
  {
    (at - origin) / size
  }

  /** A tile between the ends of the area has its cell among the whole cells of the area. */
  lemma CellInside(at: int, lo: int, hi: int, size: nat, pixels: nat)
    requires lo <= at && at + size <= hi && size > 0
    ensures Cell(at, lo, size) * pixels + pixels <= (hi - lo) / size * pixels
  {
    var c := Cell(at, lo, size);
    var r := (at - lo) % size;
    assert at - lo == c * size + r;
    assert (c + 1) * size == c * size + size;
    DivModUnique(at + size - lo, c + 1, size, r);
    DivMono(at + size - lo, hi - lo, size);
    MulMono(c + 1, (hi - lo) / size, pixels);
    assert (c + 1) * pixels == c * pixels + pixels;
  }

  /** The pixels of a cell. */
  function PixelRect(cellX: nat, cellY: nat, pixelWidth: nat, pixelHeight: nat): Rectangle {
    Rectangle(cellX * pixelWidth, cellY * pixelHeight, cellX * pixelWidth + pixelWidth, cellY * pixelHeight + pixelHeight)
  }

  /** The pixels of the tile at a position of the render area. */
  function TilePixels(p: Position, area: Rectangle, tileWidth: nat, tileHeight: nat, pixelWidth: nat, pixelHeight: nat): Rectangle
    requires area.x1 <= p.x && area.y1 <= p.y && tileWidth > 0 && tileHeight > 0
  {
    PixelRect(Cell(p.x, area.x1, tileWidth), Cell(p.y, area.y1, tileHeight), pixelWidth, pixelHeight)
  }

  lemma TileInside(p: Position, area: Rectangle, tileWidth: nat, tileHeight: nat, pixelWidth: nat, pixelHeight: nat)
    requires tileWidth > 0 && tileHeight > 0
    requires area.x1 <= p.x && p.x + tileWidth <= area.x2 && area.y1 <= p.y && p.y + tileHeight <= area.y2
    ensures var r := TilePixels(p, area, tileWidth, tileHeight, pixelWidth, pixelHeight);
      && 0 <= r.x1 && r.x2 <= area.Width() / tileWidth * pixelWidth
      && 0 <= r.y1 && r.y2 <= area.Height() / tileHeight * pixelHeight
  {
    hide Cell;
    CellInside(p.x, area.x1, area.x2, tileWidth, pixelWidth);
    CellInside(p.y, area.y1, area.y2, tileHeight, pixelHeight);
    MulMono(0, Cell(p.x, area.x1, tileWidth), pixelWidth);
    MulMono(0, Cell(p.y, area.y1, tileHeight), pixelHeight);
  }

  /** The rectangle holds all tiles, and each of its four edges is that of a tile. */
  ghost predicate IsHull(area: Rectangle, tiles: seq<Position>, tileWidth: nat, tileHeight: nat) {
    && (forall i :: 0 <= i < |tiles| ==>
          && area.x1 <= tiles[i].x && tiles[i].x + tileWidth <= area.x2
          && area.y1 <= tiles[i].y && tiles[i].y + tileHeight <= area.y2)
    && (exists i :: 0 <= i < |tiles| && area.x1 == tiles[i].x)
    && (exists i :: 0 <= i < |tiles| && area.y1 == tiles[i].y)
    && (exists i :: 0 <= i < |tiles| && area.x2 == tiles[i].x + tileWidth)
    && (exists i :: 0 <= i < |tiles| && area.y2 == tiles[i].y + tileHeight)
  }

  lemma HullOne(p: Position, tileWidth: nat, tileHeight: nat)
    ensures IsHull(Rectangle(p.x, p.y, p.x + tileWidth, p.y + tileHeight), [p], tileWidth, tileHeight)
  {
    assert [p][0] == p;
  }

  lemma HullMore(area: Rectangle, tiles: seq<Position>, tileWidth: nat, tileHeight: nat, p: Position)
    requires IsHull(area, tiles, tileWidth, tileHeight)
    ensures IsHull(area.Extend(Rectangle(p.x, p.y, p.x + tileWidth, p.y + tileHeight)), tiles + [p], tileWidth, tileHeight)
  {
    var more := tiles + [p];
    var left :| 0 <= left < |tiles| && area.x1 == tiles[left].x;
    var top :| 0 <= top < |tiles| && area.y1 == tiles[top].y;
    var right :| 0 <= right < |tiles| && area.x2 == tiles[right].x + tileWidth;
    var bottom :| 0 <= bottom < |tiles| && area.y2 == tiles[bottom].y + tileHeight;
    assert more[left] == tiles[left] && more[top] == tiles[top] && more[right] == tiles[right] && more[bottom] == tiles[bottom];
    assert more[|tiles|] == p;
  }

  /** The smallest rectangle around all tiles. */
  method RenderArea(tiles: seq<Position>, tileWidth: nat, tileHeight: nat) returns (renderArea: Rectangle)
    requires tiles != [] && tileWidth > 0 && tileHeight > 0
    ensures IsHull(renderArea, tiles, tileWidth, tileHeight)
  {
    hide IsHull;
    var first := tiles[0];
    renderArea := Rectangle(first.x, first.y, first.x + tileWidth, first.y + tileHeight);
    HullOne(first, tileWidth, tileHeight);
    assert tiles[..1] == [first];
    for k := 1 to |tiles|
      invariant IsHull(renderArea, tiles[..k], tileWidth, tileHeight)
    {
      HullMore(renderArea, tiles[..k], tileWidth, tileHeight, tiles[k]);
      assert tiles[..k] + [tiles[k]] == tiles[..k + 1];
      renderArea := renderArea.Extend(Rectangle(tiles[k].x, tiles[k].y, tiles[k].x + tileWidth, tiles[k].y + tileHeight));
    }
    assert tiles[..|tiles|] == tiles;
  }

  /** A picture of the area scaled to pixels has the tile at p in rectangle r. */
  predicate Scaled(r: Rectangle, p: Position, area: Rectangle, tileWidth: nat, tileHeight: nat, pixelWidth: nat, pixelHeight: nat) {
    && r.x1 * tileWidth == (p.x - area.x1) * pixelWidth && r.x2 == r.x1 + pixelWidth
    && r.y1 * tileHeight == (p.y - area.y1) * pixelHeight && r.y2 == r.y1 + pixelHeight
  }

  /**
   * The layout of a render: the area and the size of the pixmap in whole tiles, and the pixel
   * rectangle of every tile, all inside the pixmap. For tiles on a common grid each has the
   * rectangle to which the area is scaled there, and no two share a pixel.
   */
  method Layout(tiles: seq<Position>, tileWidth: nat, tileHeight: nat, pixelWidth: nat, pixelHeight: nat)
    returns (renderArea: Rectangle, pixmapWidth: nat, pixmapHeight: nat, offsets: seq<Rectangle>)
    requires tiles != [] && tileWidth > 0 && tileHeight > 0
    ensures IsHull(renderArea, tiles, tileWidth, tileHeight) && |offsets| == |tiles|
    ensures pixmapWidth == (renderArea.x2 - renderArea.x1) / tileWidth * pixelWidth
    ensures pixmapHeight == (renderArea.y2 - renderArea.y1) / tileHeight * pixelHeight
    ensures forall i :: 0 <= i < |tiles| ==> renderArea.x1 <= tiles[i].x && renderArea.y1 <= tiles[i].y
    ensures forall i :: 0 <= i < |tiles| ==>
      offsets[i] == TilePixels(tiles[i], renderArea, tileWidth, tileHeight, pixelWidth, pixelHeight)
    ensures forall i :: 0 <= i < |tiles| ==>
      0 <= offsets[i].x1 && offsets[i].x2 <= pixmapWidth && 0 <= offsets[i].y1 && offsets[i].y2 <= pixmapHeight
    ensures OnGrid(tiles, tileWidth, tileHeight) ==> forall i :: 0 <= i < |tiles| ==>
      Scaled(offsets[i], tiles[i], renderArea, tileWidth, tileHeight, pixelWidth, pixelHeight)
    ensures pixelWidth > 0 && pixelHeight > 0 && OnGrid(tiles, tileWidth, tileHeight) ==>
      forall i, j :: 0 <= i < |tiles| && 0 <= j < |tiles| && tiles[i] != tiles[j] ==> !offsets[i].Overlaps(offsets[j])
  {
    hide TilePixels, Scaled;
    renderArea := RenderArea(tiles, tileWidth, tileHeight);
    assert tiles[0].x + tileWidth <= renderArea.x2 && tiles[0].y + tileHeight <= renderArea.y2;
    var tilesByX, tilesByY := renderArea.Width() / tileWidth, renderArea.Height() / tileHeight;
    pixmapWidth, pixmapHeight := tilesByX * pixelWidth, tilesByY * pixelHeight;
    offsets := [];
    for k := 0 to |tiles|
      invariant |offsets| == k
      invariant forall i :: 0 <= i < k ==>
        offsets[i] == TilePixels(tiles[i], renderArea, tileWidth, tileHeight, pixelWidth, pixelHeight)
      invariant forall i :: 0 <= i < k ==>
        0 <= offsets[i].x1 && offsets[i].x2 <= pixmapWidth && 0 <= offsets[i].y1 && offsets[i].y2 <= pixmapHeight
    {
      TileInside(tiles[k], renderArea, tileWidth, tileHeight, pixelWidth, pixelHeight);
      offsets := offsets + [TilePixels(tiles[k], renderArea, tileWidth, tileHeight, pixelWidth, pixelHeight)];
    }
    if OnGrid(tiles, tileWidth, tileHeight) {
      LayoutScaled(tiles, renderArea, tileWidth, tileHeight, pixelWidth, pixelHeight);
      if pixelWidth > 0 && pixelHeight > 0 {
        LayoutDisjoint(tiles, renderArea, tileWidth, tileHeight, pixelWidth, pixelHeight, offsets);
      }
    }
  }

  lemma LayoutScaled(tiles: seq<Position>, area: Rectangle, tileWidth: nat, tileHeight: nat, pixelWidth: nat, pixelHeight: nat)
    requires tiles != [] && tileWidth > 0 && tileHeight > 0 && OnGrid(tiles, tileWidth, tileHeight) && IsHull(area, tiles, tileWidth, tileHeight)
    ensures forall i :: 0 <= i < |tiles| ==> area.x1 <= tiles[i].x && area.y1 <= tiles[i].y
    ensures forall i :: 0 <= i < |tiles| ==>
      Scaled(TilePixels(tiles[i], area, tileWidth, tileHeight, pixelWidth, pixelHeight), tiles[i], area, tileWidth, tileHeight, pixelWidth, pixelHeight)
  {
    hide Scaled, TilePixels;
    var left :| 0 <= left < |tiles| && area.x1 == tiles[left].x;
    var top :| 0 <= top < |tiles| && area.y1 == tiles[top].y;
    forall i | 0 <= i < |tiles|
      ensures Scaled(TilePixels(tiles[i], area, tileWidth, tileHeight, pixelWidth, pixelHeight), tiles[i], area, tileWidth, tileHeight, pixelWidth, pixelHeight)
    {
      TileScaled(tiles[i], area, tileWidth, tileHeight, pixelWidth, pixelHeight);
    }
  }

  lemma TileScaled(p: Position, area: Rectangle, tileWidth: nat, tileHeight: nat, pixelWidth: nat, pixelHeight: nat)
    requires tileWidth > 0 && tileHeight > 0 && 0 <= area.x1 <= p.x && 0 <= area.y1 <= p.y
    requires p.x % tileWidth == area.x1 % tileWidth && p.y % tileHeight == area.y1 % tileHeight
    ensures Scaled(TilePixels(p, area, tileWidth, tileHeight, pixelWidth, pixelHeight), p, area, tileWidth, tileHeight, pixelWidth, pixelHeight)
  {
    hide Cell;
    Exact(p.x, area.x1, tileWidth);
    Exact(p.y, area.y1, tileHeight);
    Exchange(Cell(p.x, area.x1, tileWidth), tileWidth, pixelWidth);
    Exchange(Cell(p.y, area.y1, tileHeight), tileHeight, pixelHeight);
  }

  lemma Exchange(c: nat, a: nat, b: nat)
    ensures (c * b) * a == (c * a) * b
  {
  }

  lemma CellsApart(a: nat, b: nat, pixels: nat)
    requires pixels > 0
    ensures a == b <==> a * pixels < b * pixels + pixels && b * pixels < a * pixels + pixels
  {
    if a < b {
      MulMono(a + 1, b, pixels);
      assert (a + 1) * pixels == a * pixels + pixels;
    } else if b < a {
      MulMono(b + 1, a, pixels);
      assert (b + 1) * pixels == b * pixels + pixels;
    }
  }

  /** Two tiles share pixels exactly when they fall into the same cell. */
  lemma OverlapExactlyWhen(ax: nat, ay: nat, bx: nat, by': nat, pixelWidth: nat, pixelHeight: nat)
    requires pixelWidth > 0 && pixelHeight > 0
    ensures PixelRect(ax, ay, pixelWidth, pixelHeight).Overlaps(PixelRect(bx, by', pixelWidth, pixelHeight))
            <==> ax == bx && ay == by'
  {
    CellsApart(ax, bx, pixelWidth);
    CellsApart(ay, by', pixelHeight);
  }

  /** On the grid, different coordinates fall into different cells. */
  lemma AlignedCells(a: nat, b: nat, origin: nat, size: nat)
    requires size > 0 && origin <= a && origin <= b && a % size == b % size == origin % size
    ensures Cell(a, origin, size) == Cell(b, origin, size) <==> a == b
  {
    Exact(a, origin, size);
    Exact(b, origin, size);
  }

  lemma Exact(a: nat, origin: nat, size: nat)
    requires size > 0 && origin <= a && a % size == origin % size
    ensures a - origin == Cell(a, origin, size) * size
  {
    var p, q := a / size, origin / size;
    DivMono(origin, a, size);
    assert a == p * size + a % size && origin == q * size + origin % size;
    assert (p - q) * size == p * size - q * size;
    DivModUnique(a - origin, p - q, size, 0);
  }

  /** Distinct tiles on the tile grid never share a pixel. */
  lemma AlignedTilesDisjoint(p: Position, q: Position, area: Rectangle, tileWidth: nat, tileHeight: nat, pixelWidth: nat, pixelHeight: nat)
    requires tileWidth > 0 && tileHeight > 0 && pixelWidth > 0 && pixelHeight > 0 && p != q
    requires 0 <= area.x1 <= p.x && area.x1 <= q.x && 0 <= area.y1 <= p.y && area.y1 <= q.y
    requires p.x % tileWidth == q.x % tileWidth == area.x1 % tileWidth
    requires p.y % tileHeight == q.y % tileHeight == area.y1 % tileHeight
    ensures !TilePixels(p, area, tileWidth, tileHeight, pixelWidth, pixelHeight).Overlaps(
               TilePixels(q, area, tileWidth, tileHeight, pixelWidth, pixelHeight))
  {
    hide PixelRect, Cell;
    OverlapExactlyWhen(Cell(p.x, area.x1, tileWidth), Cell(p.y, area.y1, tileHeight),
                       Cell(q.x, area.x1, tileWidth), Cell(q.y, area.y1, tileHeight), pixelWidth, pixelHeight);
    AlignedCells(p.x, q.x, area.x1, tileWidth);
    AlignedCells(p.y, q.y, area.y1, tileHeight);
  }

  /** All tiles lie on the grid of the first one. */
  predicate OnGrid(tiles: seq<Position>, tileWidth: nat, tileHeight: nat)
    requires tiles != [] && tileWidth > 0 && tileHeight > 0
  {
    forall i :: 0 <= i < |tiles| ==>
      tiles[i].x % tileWidth == tiles[0].x % tileWidth && tiles[i].y % tileHeight == tiles[0].y % tileHeight
  }

  /** In the layout of any list of tiles on the grid, no two different tiles share a pixel. */
  lemma LayoutDisjoint(tiles: seq<Position>, area: Rectangle, tileWidth: nat, tileHeight: nat, pixelWidth: nat, pixelHeight: nat,
                       offsets: seq<Rectangle>)
    requires tiles != [] && tileWidth > 0 && tileHeight > 0 && pixelWidth > 0 && pixelHeight > 0 && OnGrid(tiles, tileWidth, tileHeight)
    requires IsHull(area, tiles, tileWidth, tileHeight)
    requires forall k :: 0 <= k < |tiles| ==> area.x1 <= tiles[k].x && area.y1 <= tiles[k].y
    requires |offsets| == |tiles| && forall k :: 0 <= k < |tiles| ==>
      offsets[k] == TilePixels(tiles[k], area, tileWidth, tileHeight, pixelWidth, pixelHeight)
    ensures forall i, j :: 0 <= i < |tiles| && 0 <= j < |tiles| && tiles[i] != tiles[j] ==> !offsets[i].Overlaps(offsets[j])
  {
    hide TilePixels;
    var left :| 0 <= left < |tiles| && area.x1 == tiles[left].x;
    var top :| 0 <= top < |tiles| && area.y1 == tiles[top].y;
    forall i, j | 0 <= i < |tiles| && 0 <= j < |tiles| && tiles[i] != tiles[j] ensures !offsets[i].Overlaps(offsets[j]) {
      AlignedTilesDisjoint(tiles[i], tiles[j], area, tileWidth, tileHeight, pixelWidth, pixelHeight);
    }
  }

  /** A rendered tile's description: which tile, and its image size. */
  datatype Rendered = Rendered(tile: nat, imgSize: nat)

  lemma {:induction false} ConcatPrefix(parts: seq<seq<Byte>>, n: nat)
    requires n <= |parts|
    ensures Concat(parts[..n]) <= Concat(parts)
    decreases |parts| - n
  {
    if n < |parts| {
      ConcatPrefix(parts, n + 1);
      assert parts[..n + 1][..n] == parts[..n];
    } else {
      assert parts[..n] == parts;
    }
  }

  /** The output and the rendered tiles that all jobs share, appended to under one mutex. */
  class SharedOutput {
    var output: seq<Byte>
    var renderedTiles: seq<Rendered>
    ghost var parts: seq<seq<Byte>>  // the data of each rendered tile

    ghost predicate Valid()
      reads this
    {
      && output == Concat(parts) && |renderedTiles| == |parts|
      && forall i :: 0 <= i < |parts| ==> renderedTiles[i].imgSize == |parts[i]|
    }

    constructor ()
      ensures Valid() && parts == [] && renderedTiles == []
    {
      output, renderedTiles, parts := [], [], [];
    }

    /** The end of a job, in whatever order jobs end. */
    method Append(tile: nat, data: seq<Byte>)
      requires Valid()
      modifies this
      ensures Valid() && parts == old(parts) + [data]
      ensures renderedTiles == old(renderedTiles) + [Rendered(tile, |data|)]
    {
      output := output + data;
      renderedTiles := renderedTiles + [Rendered(tile, |data|)];
      parts := parts + [data];
      assert parts[..|parts| - 1] == old(parts);
    }

    /** Cuts the output into one message per tile: each gets the bytes its own job produced. */
    method Slice() returns (messages: seq<(nat, seq<Byte>)>)
      requires Valid()
      ensures |messages| == |parts|
      ensures forall i :: 0 <= i < |parts| ==> messages[i] == (renderedTiles[i].tile, parts[i])
    {
      messages := [];
      var outputOffset := 0;
      for k := 0 to |renderedTiles|
        invariant |messages| == k && outputOffset == |Concat(parts[..k])| <= |output|
        invariant forall i :: 0 <= i < k ==> messages[i] == (renderedTiles[i].tile, parts[i])
      {
        ConcatPrefix(parts, k);
        ConcatPrefix(parts, k + 1);
        assert parts[..k + 1][..k] == parts[..k];
        var end := outputOffset + renderedTiles[k].imgSize;
        assert Concat(parts[..k + 1]) == output[..end];
        assert output[..end][outputOffset..] == parts[k];
        messages := messages + [(renderedTiles[k].tile, output[outputOffset..end])];
        outputOffset := end;
      }
    }
  }
}
