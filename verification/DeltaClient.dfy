/** Delta records, and the decoder by which a client applies them to the tile it holds. */
module DeltaClient {
  import opened Pixels
  import opened Wrappers

  const COPY: Byte := 99
  const RUN: Byte := 100
  const END: Byte := 116

  /** `Copy` takes rows of the tile before the delta; `Run` overwrites pixels, in wire form. */
  datatype AnyRecord =
    | Copy(count: Byte, src: Byte, dest: Byte)
    | Run(y: Byte, x: Byte, pixels: PixelRow)

  /** A record whose counts, rows and columns all fit a byte. */
  type Record = r: AnyRecord | r.Run? ==> |r.pixels| < 256 witness Copy(0, 0, 0)

  /** The record stays inside a tile of this size. */
  ghost predicate Fits(r: Record, width: nat, height: nat) {
    match r
    case Copy(count, src, dest) => src + count <= height && dest + count <= height
    case Run(y, x, pixels) => y < height && x + |pixels| <= width
  }

  ghost predicate AllFit(rs: seq<Record>, width: nat, height: nat) {
    forall i :: 0 <= i < |rs| ==> Fits(rs[i], width, height)
  }

  function CopyRows(held: Tile, image: Tile, count: nat, src: nat, dest: nat): Tile
    requires src + count <= |held| && dest + count <= |image|
  {
    image[..dest] + held[src .. src + count] + image[dest + count..]
  }

  function PaintRun(image: Tile, y: nat, x: nat, pixels: PixelRow): Tile
    requires y < |image| && x + |pixels| <= |image[y]|
  {
    image[y := image[y][..x] + pixels + image[y][x + |pixels|..]]
  }

  ghost function Apply(r: Record, held: Tile, image: Tile, width: nat, height: nat): (after: Tile)
    requires Sized(held, width, height) && Sized(image, width, height) && Fits(r, width, height)
    ensures Sized(after, width, height)
  {
    match r
    case Copy(count, src, dest) => CopyRows(held, image, count, src, dest)
    case Run(y, x, pixels) => PaintRun(image, y, x, pixels)
  }

  /** All records in order; copies read the tile from before the first of them. */
  ghost function ApplyAll(rs: seq<Record>, held: Tile, image: Tile, width: nat, height: nat): (after: Tile)
    requires Sized(held, width, height) && Sized(image, width, height) && AllFit(rs, width, height)
    ensures Sized(after, width, height)
    decreases |rs|
  {
    if rs == [] then image
    else ApplyAll(rs[1..], held, Apply(rs[0], held, image, width, height), width, height)
  }

  lemma {:induction false} ApplyConcat(a: seq<Record>, b: seq<Record>, held: Tile, image: Tile, width: nat, height: nat)
    requires Sized(held, width, height) && Sized(image, width, height)
    requires AllFit(a, width, height) && AllFit(b, width, height)
    ensures AllFit(a + b, width, height)
    ensures ApplyAll(a + b, held, image, width, height)
            == ApplyAll(b, held, ApplyAll(a, held, image, width, height), width, height)
    decreases |a|
  {
    if a == [] {
      assert a + b == b;
    } else {
      assert (a + b)[0] == a[0] && (a + b)[1..] == a[1..] + b;
      ApplyConcat(a[1..], b, held, Apply(a[0], held, image, width, height), width, height);
    }
  }

  ghost function RecordBytes(r: Record): seq<Byte> {
    match r
    case Copy(count, src, dest) => [COPY, count, src, dest]
    case Run(y, x, pixels) => [RUN, y, x, |pixels|] + RowBytes(pixels)
  }

  /** A copy is 'c', count, source and destination row; a run is 'd', row, column, length and four bytes for each pixel. */
  lemma RecordForm(r: Record)
    ensures r.Copy? ==> RecordBytes(r) == [99, r.count, r.src, r.dest]
    ensures r.Run? ==> |RecordBytes(r)| == 4 + 4 * |r.pixels| && RecordBytes(r)[..4] == [100, r.y, r.x, |r.pixels|]
    ensures r.Run? ==> forall i :: 0 <= i < |r.pixels| ==> PixelsOf(RecordBytes(r)[4..], |r.pixels|)[i] == r.pixels[i]
  {
    if r.Run? {
      var bytes := RowBytes(r.pixels);
      assert RecordBytes(r)[4..] == bytes && bytes + [] == bytes;
      PixelsOfRowBytes(r.pixels, []);
    }
  }

  ghost function AllBytes(rs: seq<Record>): seq<Byte> {
    if rs == [] then [] else RecordBytes(rs[0]) + AllBytes(rs[1..])
  }

  lemma {:induction false} BytesConcat(a: seq<Record>, b: seq<Record>)
    ensures AllBytes(a + b) == AllBytes(a) + AllBytes(b)
  {
    if a == [] {
      assert a + b == b;
    } else {
      assert (a + b)[0] == a[0] && (a + b)[1..] == a[1..] + b;
      BytesConcat(a[1..], b);
    }
  }

  lemma BytesAppend(rs: seq<Record>, r: Record)
    ensures AllBytes(rs + [r]) == AllBytes(rs) + RecordBytes(r)
  {
    BytesConcat(rs, [r]);
    assert AllBytes([r][1..]) == [];
  }

  /**
   * One delta as the client applies it. `show` is what the client does to each received pixel
   * before it puts it on the canvas; copied rows come from the canvas. Yields the canvas and the
   * bytes behind the delta, or None where a record leaves the canvas or the data.
   */
  function DecodeChunk(show: Pixel -> Pixel, delta: seq<Byte>, held: Tile, image: Tile): (r: Option<(Tile, seq<Byte>)>)
    ensures r.Some? && delta != [] ==> |r.value.1| < |delta|
    ensures r.Some? ==> |r.value.0| == |image|
    decreases |delta|
  {
    if delta == [] then Some((image, []))
    else if delta[0] == END then Some((image, delta[1..]))
    else if |delta| < 4 then None
    else if delta[0] == COPY then
      var count, src, dest := delta[1], delta[2], delta[3];
      if src + count <= |held| && dest + count <= |image|
      then DecodeChunk(show, delta[4..], held, CopyRows(held, image, count, src, dest))
      else None
    else if delta[0] == RUN then
      var y, x, span := delta[1], delta[2], delta[3];
      if y < |image| && x + span <= |image[y]| && 4 * span <= |delta[4..]|
      then
        var pixels := MapRow(show, PixelsOf(delta[4..], span));
        DecodeChunk(show, delta[4 + 4 * span..], held, PaintRun(image, y, x, pixels))
      else None
    else None
  }

  /** Applying a record commutes with what the client does to each pixel. */
  lemma ApplyShown(show: Pixel -> Pixel, r: Record, held: Tile, image: Tile, width: nat, height: nat)
    requires Sized(held, width, height) && Sized(image, width, height) && Fits(r, width, height)
    ensures r.Copy? ==>
      MapTile(show, Apply(r, held, image, width, height))
      == CopyRows(MapTile(show, held), MapTile(show, image), r.count, r.src, r.dest)
    ensures r.Run? ==>
      MapTile(show, Apply(r, held, image, width, height))
      == PaintRun(MapTile(show, image), r.y, r.x, MapRow(show, r.pixels))
  {
    if r.Run? {
      var row := image[r.y];
      var painted := row[..r.x] + r.pixels + row[r.x + |r.pixels|..];
      assert MapRow(show, painted)
          == MapRow(show, row)[..r.x] + MapRow(show, r.pixels) + MapRow(show, row)[r.x + |r.pixels|..];
    }
  }

  lemma DecodeCopy(show: Pixel -> Pixel, r: Record, tail: seq<Byte>, held: Tile, image: Tile)
    requires r.Copy? && r.src + r.count <= |held| && r.dest + r.count <= |image|
    ensures DecodeChunk(show, RecordBytes(r) + tail, held, image)
            == DecodeChunk(show, tail, held, CopyRows(held, image, r.count, r.src, r.dest))
  {
    var delta := RecordBytes(r) + tail;
    assert delta[4..] == tail;
  }

  lemma DecodeRun(show: Pixel -> Pixel, r: Record, tail: seq<Byte>, held: Tile, image: Tile)
    requires r.Run? && r.y < |image| && r.x + |r.pixels| <= |image[r.y]|
    ensures DecodeChunk(show, RecordBytes(r) + tail, held, image)
            == DecodeChunk(show, tail, held, PaintRun(image, r.y, r.x, MapRow(show, r.pixels)))
  {
    var delta := RecordBytes(r) + tail;
    var bytes := RowBytes(r.pixels);
    assert delta[0] == RUN && delta[1] == r.y && delta[2] == r.x && delta[3] == |r.pixels|;
    assert delta[4..] == bytes + tail;
    assert delta[4 + 4 * |r.pixels|..] == tail;
    PixelsOfRowBytes(r.pixels, tail);
    hide RowBytes, PixelsOf, PaintRun, MapRow, RecordBytes;
  }

  /** The bytes of records, ended, make the client do to its canvas what the records say, and no more. */
  lemma {:induction false} DecodeRecords(show: Pixel -> Pixel, rs: seq<Record>, rest: seq<Byte>,
                                         held: Tile, image: Tile, width: nat, height: nat)
    requires Sized(held, width, height) && Sized(image, width, height) && AllFit(rs, width, height)
    ensures DecodeChunk(show, AllBytes(rs) + [END] + rest, MapTile(show, held), MapTile(show, image))
            == Some((MapTile(show, ApplyAll(rs, held, image, width, height)), rest))
    decreases |rs|
  {
    var delta := AllBytes(rs) + [END] + rest;
    if rs == [] {
      assert delta[0] == END && delta[1..] == rest;
    } else {
      var tail := AllBytes(rs[1..]) + [END] + rest;
      assert delta == RecordBytes(rs[0]) + tail;
      ApplyShown(show, rs[0], held, image, width, height);
      if rs[0].Copy? {
        DecodeCopy(show, rs[0], tail, MapTile(show, held), MapTile(show, image));
      } else {
        DecodeRun(show, rs[0], tail, MapTile(show, held), MapTile(show, image));
      }
      DecodeRecords(show, rs[1..], rest, held, Apply(rs[0], held, image, width, height), width, height);
    }
  }
}
