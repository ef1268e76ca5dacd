/** Pixels, tiles and the wire form of a pixel row. */
module Pixels {

  type Byte = x: int | 0 <= x < 256

  /** The four bytes of a pixel in memory order. */
  datatype Pixel = Pixel(b0: Byte, b1: Byte, b2: Byte, b3: Byte)

  const TRANSPARENT := Pixel(0, 0, 0, 0)

  datatype TileMode = Rgba | Bgra

  type PixelRow = seq<Pixel>

  type Tile = seq<PixelRow>

  datatype Position = Position(x: nat, y: nat)

  /** Which tile of which view it is. */
  datatype TileLocation = TileLocation(left: int, top: int, size: int, part: int, canonicalViewId: int)

  /** Every row of the tile has the given width. */
  ghost predicate Sized(t: Tile, width: nat, height: nat) {
    |t| == height && forall y :: 0 <= y < |t| ==> |t[y]| == width
  }

  /** What a pixel of the renderer's mode looks like on the wire, which is always RGBA. */
  function Wire(p: Pixel, mode: TileMode): Pixel {
    match mode
    case Rgba => p
    case Bgra => Pixel(p.b2, p.b1, p.b0, p.b3)
  }

  function MapRow(f: Pixel -> Pixel, row: PixelRow): (r: PixelRow)
    ensures |r| == |row|
  {
    seq(|row|, i requires 0 <= i < |row| => f(row[i]))
  }

  function MapTile(f: Pixel -> Pixel, t: Tile): (r: Tile)
    ensures |r| == |t|
  {
    seq(|t|, i requires 0 <= i < |t| => MapRow(f, t[i]))
  }

  function WireRow(row: PixelRow, mode: TileMode): (r: PixelRow)
    ensures |r| == |row|
  {
    seq(|row|, i requires 0 <= i < |row| => Wire(row[i], mode))
  }

  function WireTile(t: Tile, mode: TileMode): (r: Tile)
    ensures |r| == |t|
  {
    seq(|t|, i requires 0 <= i < |t| => WireRow(t[i], mode))
  }

  lemma WireSlice(row: PixelRow, mode: TileMode, a: nat, b: nat)
    requires a <= b <= |row|
    ensures WireRow(row[a..b], mode) == WireRow(row, mode)[a..b]
  {
  }

  /** The bytes of a row as they lie in memory. */
  function RowBytes(row: PixelRow): (r: seq<Byte>)
    ensures |r| == 4 * |row|
  {
    if row == [] then [] else [row[0].b0, row[0].b1, row[0].b2, row[0].b3] + RowBytes(row[1..])
  }

  lemma {:induction false} RowBytesAt(row: PixelRow, i: nat)
    requires i < |row|
    ensures RowBytes(row)[4 * i] == row[i].b0 && RowBytes(row)[4 * i + 1] == row[i].b1
    ensures RowBytes(row)[4 * i + 2] == row[i].b2 && RowBytes(row)[4 * i + 3] == row[i].b3
  {
    if i > 0 {
      RowBytesAt(row[1..], i - 1);
    }
  }

  lemma {:induction false} RowBytesConcat(a: PixelRow, b: PixelRow)
    ensures RowBytes(a + b) == RowBytes(a) + RowBytes(b)
  {
    if a == [] {
      assert a + b == b;
    } else {
      assert (a + b)[1..] == a[1..] + b;
      RowBytesConcat(a[1..], b);
    }
  }

  /** Byte strings one after the other. */
  function Concat(parts: seq<seq<Byte>>): seq<Byte> {
    if parts == [] then [] else Concat(parts[..|parts| - 1]) + parts[|parts| - 1]
  }

  /** Reads n pixels back from the front of a byte string. */
  function PixelsOf(bytes: seq<Byte>, n: nat): (r: PixelRow)
    requires 4 * n <= |bytes|
    ensures |r| == n
  {
    seq(n, i requires 0 <= i < n =>
      Pixel(bytes[4 * i], bytes[4 * i + 1], bytes[4 * i + 2], bytes[4 * i + 3]))
  }

  lemma PixelsOfRowBytes(row: PixelRow, rest: seq<Byte>)
    ensures PixelsOf(RowBytes(row) + rest, |row|) == row
  {
    forall i | 0 <= i < |row| ensures PixelsOf(RowBytes(row) + rest, |row|)[i] == row[i] {
      RowBytesAt(row, i);
    }
  }

  lemma {:induction false} RowBytesUpdate(row: PixelRow, k: nat, q: Pixel)
    requires k < |row|
    ensures RowBytes(row[k := q]) ==
            RowBytes(row)[4 * k := q.b0][4 * k + 1 := q.b1][4 * k + 2 := q.b2][4 * k + 3 := q.b3]
  {
    if k == 0 {
      assert row[k := q][1..] == row[1..];
    } else {
      RowBytesUpdate(row[1..], k - 1, q);
      assert row[k := q][1..] == row[1..][k - 1 := q];
    }
  }

  /** Exchanging two bytes of pixel k brings it into wire form. */
  lemma SwapOne(row: PixelRow, k: nat)
    requires k < |row|
    ensures var wire := WireRow(row, Bgra); var dest, j := RowBytes(wire[..k] + row[k..]), 4 * k;
      j + 3 < |dest| && dest[j := dest[j + 2]][j + 2 := dest[j]] == RowBytes(wire[..k + 1] + row[k + 1..])
  {
    var wire := WireRow(row, Bgra);
    var mixed := wire[..k] + row[k..];
    RowBytesAt(mixed, k);
    RowBytesUpdate(mixed, k, wire[k]);
    hide RowBytes;
    assert mixed[k] == row[k] && mixed[k := wire[k]] == wire[..k + 1] + row[k + 1..];
  }

  /** Of every four bytes the first and the third are exchanged. */
  ghost predicate Exchanged(src: seq<Byte>, dest: seq<Byte>) {
    && |dest| == |src| && |src| % 4 == 0
    && forall j :: 0 <= j < |src| ==> dest[j] == src[if j % 4 == 0 then j + 2 else if j % 4 == 2 then j - 2 else j]
  }

  lemma WireExchanged(row: PixelRow)
    ensures Exchanged(RowBytes(row), RowBytes(WireRow(row, Bgra)))
  {
    hide RowBytes;
    var wire := WireRow(row, Bgra);
    var src, dest := RowBytes(row), RowBytes(wire);
    forall j | 0 <= j < |src| ensures dest[j] == src[if j % 4 == 0 then j + 2 else if j % 4 == 2 then j - 2 else j] {
      RowBytesAt(row, j / 4);
      RowBytesAt(wire, j / 4);
    }
  }

  /** Copies a row of pixel bytes, exchanging the first and third byte of every BGRA pixel. */
  method CopyRow(src: seq<Byte>, ghost row: PixelRow, mode: TileMode) returns (dest: seq<Byte>)
    requires src == RowBytes(row)
    ensures dest == RowBytes(WireRow(row, mode)) && |dest| == |src|
    ensures mode == Rgba ==> dest == src
    ensures mode == Bgra ==> Exchanged(src, dest)
  {
    hide RowBytes, Exchanged;
    dest := src;
    ghost var wire := WireRow(row, mode);
    if mode == Bgra {
      ghost var k := 0;
      var j := 0;
      assert wire[..0] + row[0..] == row;
      while j < |src|
        invariant j == 4 * k <= |src| == |dest|
        invariant dest == RowBytes(wire[..k] + row[k..])
      {
        SwapOne(row, k);
        dest := dest[j := dest[j + 2]][j + 2 := dest[j]];
        j, k := j + 4, k + 1;
      }
      assert wire[..k] + row[k..] == wire;
      WireExchanged(row);
    } else {
      assert wire == row;
    }
  }
}
