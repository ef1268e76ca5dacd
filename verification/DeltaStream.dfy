/** Keyframes and deltas as a stream of messages, and the tile a client ends up with. */
module DeltaStream {
  import opened Wrappers
  import opened Pixels
  import opened DeltaClient
  import opened DeltaTile

  /** A 'Z' or 'D' message with its payload unpacked; the header of a keyframe gives its size. */
  datatype Message = Keyframe(width: nat, height: nat, bytes: seq<Byte>) | Delta(bytes: seq<Byte>)

  ghost function FlatBytes(t: Tile): seq<Byte> {
    if t == [] then [] else RowBytes(t[0]) + FlatBytes(t[1..])
  }

  /** The keyframe payload: every row in wire form. */
  method KeyframeBytes(tile: Tile, mode: TileMode) returns (bytes: seq<Byte>)
    ensures bytes == FlatBytes(WireTile(tile, mode))
  {
    bytes := [];
    ghost var wire := WireTile(tile, mode);
    for y := 0 to |tile|
      invariant bytes == FlatBytes(wire[..y])
    {
      var fixedupLine := CopyRow(RowBytes(tile[y]), tile[y], mode);
      bytes := bytes + fixedupLine;
      FlatAppend(wire[..y], wire[y]);
      assert wire[..y] + [wire[y]] == wire[..y + 1];
    }
    assert wire[..|tile|] == wire;
  }

  lemma {:induction false} FlatAppend(t: Tile, row: PixelRow)
    ensures FlatBytes(t + [row]) == FlatBytes(t) + RowBytes(row)
  {
    if t == [] {
      assert (t + [row])[1..] == [];
    } else {
      assert (t + [row])[1..] == t[1..] + [row];
      FlatAppend(t[1..], row);
    }
  }

  /** Reads a tile of the given size off the front of the data. */
  function ReadTile(data: seq<Byte>, width: nat, height: nat): (r: Option<(Tile, seq<Byte>)>)
    ensures r.Some? ==> Sized(r.value.0, width, height)
    decreases height
  {
    if height == 0 then Some(([], data))
    else if |data| < 4 * width then None
    else match ReadTile(data[4 * width..], width, height - 1)
      case None => None
      case Some((below, rest)) => Some(([PixelsOf(data, width)] + below, rest))
  }

  lemma {:induction false} ReadFlat(t: Tile, width: nat, rest: seq<Byte>)
    requires Sized(t, width, |t|)
    ensures ReadTile(FlatBytes(t) + rest, width, |t|) == Some((t, rest))
  {
    var data := FlatBytes(t) + rest;
    if t == [] {
      assert data == rest;
    } else {
      var tail := FlatBytes(t[1..]) + rest;
      assert data == RowBytes(t[0]) + tail;
      assert data[4 * width..] == tail;
      PixelsOfRowBytes(t[0], tail);
      ReadFlat(t[1..], width, rest);
      assert [t[0]] + t[1..] == t;
    }
  }

  /** Applies deltas one after the other until the data is used up; each works on the tile the one before left. */
  function ApplyDeltas(show: Pixel -> Pixel, data: seq<Byte>, canvas: Tile): Option<Tile>
    decreases |data|
  {
    if data == [] then Some(canvas)
    else match DecodeChunk(show, data, canvas, canvas)
      case None => None
      case Some((after, rest)) => ApplyDeltas(show, rest, after)
  }

  /** The client's canvas after one message. */
  function Receive(show: Pixel -> Pixel, canvas: Option<Tile>, m: Message): Option<Tile> {
    match m
    case Keyframe(width, height, bytes) => (
      match ReadTile(bytes, width, height)
      case None => None
      case Some((tile, rest)) => ApplyDeltas(show, rest, MapTile(show, tile)))
    case Delta(bytes) =>
      if canvas.None? then None else ApplyDeltas(show, bytes, canvas.value)
  }

  function ReceiveAll(show: Pixel -> Pixel, msgs: seq<Message>): Option<Tile> {
    if msgs == [] then None
    else Receive(show, ReceiveAll(show, msgs[..|msgs| - 1]), msgs[|msgs| - 1])
  }

  /** The data the client keeps to draw the tile again: the last keyframe with all deltas since behind it. */
  function KeptData(msgs: seq<Message>): Message {
    if msgs == [] then Delta([])
    else match msgs[|msgs| - 1]
      case Keyframe(_, _, _) => msgs[|msgs| - 1]
      case Delta(bytes) => var k := KeptData(msgs[..|msgs| - 1]); k.(bytes := k.bytes + bytes)
  }

  ghost predicate IsDelta(bytes: seq<Byte>, held: Tile, next: Tile, width: nat, height: nat) {
    exists recs :: DeltaOf(bytes, recs, held, next, width, height)
  }

  /** The messages since the last keyframe lead from it to `wire`, tile by tile. */
  ghost predicate Carries(msgs: seq<Message>, wire: Tile, width: nat, height: nat) {
    && msgs != [] && Sized(wire, width, height)
    && match msgs[|msgs| - 1]
       case Keyframe(w, h, bytes) => w == width && h == height && bytes == FlatBytes(wire)
       case Delta(bytes) => exists held ::
         Carries(msgs[..|msgs| - 1], held, width, height) && IsDelta(bytes, held, wire, width, height)
  }

  /** A delta of the encoder makes the client show the next tile, whatever follows it in the stream. */
  lemma DeltaReceived(show: Pixel -> Pixel, bytes: seq<Byte>, held: Tile, next: Tile, width: nat, height: nat, rest: seq<Byte>)
    requires IsDelta(bytes, held, next, width, height)
    ensures ApplyDeltas(show, bytes + rest, MapTile(show, held)) == ApplyDeltas(show, rest, MapTile(show, next))
  {
    var recs :| DeltaOf(bytes, recs, held, next, width, height);
    if recs == [] {
      assert bytes + rest == rest;
    } else {
      assert bytes + rest == AllBytes(recs) + [END] + rest;
      DecodeRecords(show, recs, rest, held, held, width, height);
    }
  }

  /** A client that has received the messages shows the tile they carry. */
  lemma {:induction false} Shows(show: Pixel -> Pixel, msgs: seq<Message>, wire: Tile, width: nat, height: nat)
    requires Carries(msgs, wire, width, height)
    ensures ReceiveAll(show, msgs) == Some(MapTile(show, wire))
    decreases |msgs|
  {
    hide IsDelta, DecodeChunk, MapTile;
    var last, before := msgs[|msgs| - 1], msgs[..|msgs| - 1];
    assert last.bytes + [] == last.bytes;
    if last.Keyframe? {
      ReadFlat(wire, width, []);
    } else {
      var held :| Carries(before, held, width, height) && IsDelta(last.bytes, held, wire, width, height);
      Shows(show, before, held, width, height);
      DeltaReceived(show, last.bytes, held, wire, width, height, []);
    }
  }

  /** So does one that draws it again from the data it kept; deltas appended to that data then go on from there. */
  lemma {:induction false} ShowsAgain(show: Pixel -> Pixel, msgs: seq<Message>, wire: Tile, width: nat, height: nat, more: seq<Byte>)
    requires Carries(msgs, wire, width, height)
    ensures KeptData(msgs).Keyframe? && KeptData(msgs).width == width && KeptData(msgs).height == height
    ensures Receive(show, None, Keyframe(width, height, KeptData(msgs).bytes + more)) == ApplyDeltas(show, more, MapTile(show, wire))
    decreases |msgs|
  {
    hide IsDelta, DecodeChunk, MapTile;
    var last, before := msgs[|msgs| - 1], msgs[..|msgs| - 1];
    if last.Keyframe? {
      ReadFlat(wire, width, more);
    } else {
      var held :| Carries(before, held, width, height) && IsDelta(last.bytes, held, wire, width, height);
      ShowsAgain(show, before, held, width, height, last.bytes + more);
      DeltaReceived(show, last.bytes, held, wire, width, height, more);
      assert KeptData(before).bytes + last.bytes + more == KeptData(before).bytes + (last.bytes + more);
    }
  }

  /** Deltas never change the size of a canvas. */
  lemma {:induction false} DecodeKeepsSize(show: Pixel -> Pixel, delta: seq<Byte>, held: Tile, image: Tile, width: nat, height: nat)
    requires Sized(held, width, height) && Sized(image, width, height)
    ensures DecodeChunk(show, delta, held, image).Some? ==>
              Sized(DecodeChunk(show, delta, held, image).value.0, width, height)
    decreases |delta|
  {
    if |delta| >= 4 && delta[0] != END {
      var y, x, n := delta[1], delta[2], delta[3];
      if delta[0] == COPY && x + y <= |held| && n + y <= |image| {
        DecodeKeepsSize(show, delta[4..], held, CopyRows(held, image, y, x, n), width, height);
      } else if delta[0] == RUN && y < |image| && x + n <= |image[y]| && 4 * n <= |delta[4..]| {
        var pixels := MapRow(show, PixelsOf(delta[4..], n));
        DecodeKeepsSize(show, delta[4 + 4 * n..], held, PaintRun(image, y, x, pixels), width, height);
      }
    }
  }

  lemma {:induction false} DeltasKeepSize(show: Pixel -> Pixel, data: seq<Byte>, canvas: Tile, width: nat, height: nat)
    requires Sized(canvas, width, height)
    ensures ApplyDeltas(show, data, canvas).Some? ==> Sized(ApplyDeltas(show, data, canvas).value, width, height)
    decreases |data|
  {
    hide DecodeChunk;
    if data != [] {
      DecodeKeepsSize(show, data, canvas, canvas, width, height);
      var r := DecodeChunk(show, data, canvas, canvas);
      if r.Some? {
        DeltasKeepSize(show, r.value.1, r.value.0, width, height);
      }
    }
  }

  /** Whatever deltas follow, the client's canvas has the size of the last keyframe. */
  lemma {:induction false} CanvasSize(show: Pixel -> Pixel, msgs: seq<Message>)
    requires KeptData(msgs).Keyframe? && ReceiveAll(show, msgs).Some?
    ensures Sized(ReceiveAll(show, msgs).value, KeptData(msgs).width, KeptData(msgs).height)
    decreases |msgs|
  {
    hide ApplyDeltas;
    var last, before := msgs[|msgs| - 1], msgs[..|msgs| - 1];
    match last {
      case Keyframe(w, h, bytes) =>
        var (tile, rest) := ReadTile(bytes, w, h).value;
        DeltasKeepSize(show, rest, MapTile(show, tile), w, h);
      case Delta(bytes) =>
        CanvasSize(show, before);
        DeltasKeepSize(show, bytes, ReceiveAll(show, before).value, KeptData(before).width, KeptData(before).height);
    }
  }
}
