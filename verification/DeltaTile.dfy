/** Whole tile deltas (kit/Delta.hpp): which rows to copy, which to redraw. */
module DeltaTile {
  import opened Wrappers
  import opened Pixels
  import opened DeltaRow
  import opened DeltaClient
  import opened DeltaEncoder
  import opened Arith

  /** size_t arithmetic wraps. */
  const U64 := 0x1_0000_0000_0000_0000

  ghost predicate TileEncodes(rows: seq<Row>, tile: Tile, width: nat, height: nat) {
    |rows| == height && Sized(tile, width, height) && forall y :: 0 <= y < height ==> Encodes(rows[y], tile[y])
  }

  /** The k-th row the search looks at. */
  function Probe(base: nat, k: nat, h: nat): (r: nat)
    requires h > 0
    ensures r < h
  {
    (base + k) % h
  }

  /** Counting h steps up from any base meets every row. */
  lemma Rotation(base: nat, h: nat, r: nat) returns (k: nat)
    requires r < h
    ensures k < h && Probe(base, k, h) == r
  {
    var q, b := base / h, base % h;
    assert base == q * h + b;
    if b <= r {
      k := r - b;
      DivModUnique(base + k, q, h, r);
    } else {
      k := r + h - b;
      assert (q + 1) * h == q * h + h;
      DivModUnique(base + k, q + 1, h, r);
    }
  }

  /** The unsigned offset `match - y` of an earlier row still points at row y + off further down. */
  lemma Unwrapped(y: nat, off: int, yn: nat)
    requires -256 < off < 256 && y < 256 && yn < 256 && 0 <= y + off
    ensures (y + off % U64 + yn) % U64 == y + off + yn
  {
  }

  /** The row is the first that is found, counting up from a base and around. */
  ghost predicate FirstFound(tile: Tile, pixels: PixelRow, base: nat, row: nat)
    requires |tile| > 0
  {
    exists k: nat :: k < |tile| && row == Probe(base, k, |tile|) && tile[row] == pixels
      && forall j: nat :: j < k ==> tile[Probe(base, j, |tile|)] != pixels
  }

  /** Looks for a row of the previous tile equal to the current one, starting off from the last row. */
  method FindRow(prev: seq<Row>, ghost prevTile: Tile, curRow: Row, ghost curPix: PixelRow, ghost width: nat,
                 y: nat, lastMatchOffset: nat, ghost off: int)
    returns (matched: bool, row: nat)
    requires TileEncodes(prev, prevTile, width, |prev|) && y < |prev| <= MAX_SIDE
    requires Encodes(curRow, curPix) && |curPix| == width
    requires -256 < off < 256 && 0 <= y + off && lastMatchOffset == off % U64
    ensures matched ==> row < |prev| && prevTile[row] == curPix && FirstFound(prevTile, curPix, y + off, row)
    ensures !matched ==> forall r :: 0 <= r < |prev| ==> prevTile[r] != curPix
  {
    var height := |prev|;
    matched, row := false, 0;
    ghost var base := y + off;
    var yn := 0;
    while yn < height && !matched
      invariant yn <= height
      invariant matched ==> row < height && prevTile[row] == curPix && FirstFound(prevTile, curPix, base, row)
      invariant !matched ==> forall k :: 0 <= k < yn ==> prevTile[Probe(base, k, height)] != curPix
    {
      Unwrapped(y, off, yn);
      row := (y + lastMatchOffset + yn) % U64 % height;
      assert row == Probe(base, yn, height);
      IdenticalIffEqualPixels(prev[row], prevTile[row], curRow, curPix);
      if Identical(prev[row], curRow) {
        matched := true;
      }
      yn := yn + 1;
    }
    if !matched {
      forall r | 0 <= r < height ensures prevTile[r] != curPix {
        var k := Rotation(base, height, r);
      }
    }
  }

  /** `lastCopy` is the offset of the count of copy record lc, the last record or one that ends above row y - 1. */
  ghost predicate LastCopyAt(lastCopy: nat, lc: nat, recs: seq<Record>, y: nat) {
    lastCopy > 0 ==>
      && lc < |recs| && recs[lc].Copy? && lastCopy == |AllBytes(recs[..lc])| + 1
      && recs[lc].dest + recs[lc].count <= y
      && (lc + 1 == |recs| || recs[lc].dest + recs[lc].count < y)
  }

  lemma ReadCopy(lastCopy: nat, lc: nat, recs: seq<Record>, y: nat)
    requires lastCopy > 0 && LastCopyAt(lastCopy, lc, recs, y)
    ensures lastCopy + 2 < |AllBytes(recs)|
    ensures AllBytes(recs)[lastCopy] == recs[lc].count
    ensures AllBytes(recs)[lastCopy + 1] == recs[lc].src && AllBytes(recs)[lastCopy + 2] == recs[lc].dest
  {
    var front, back := recs[..lc], recs[lc..];
    BytesConcat(front, back);
    assert front + back == recs;
    assert AllBytes(back) == RecordBytes(back[0]) + AllBytes(back[1..]);
    hide AllBytes;
  }

  lemma CopyOneMore(held: Tile, image: Tile, count: nat, src: nat, dest: nat)
    requires src + count < |held| && dest + count < |image|
    ensures CopyRows(held, image, count + 1, src, dest) == CopyRows(held, image, count, src, dest)[dest + count := held[src + count]]
  {
    assert held[src .. src + count + 1] == held[src .. src + count] + [held[src + count]];
  }

  /** Counting the last copy record up by one in place copies one more row, with the bytes to row. */
  lemma ExtendCopy(output: seq<Byte>, init: seq<Record>, last: Record, held: Tile, image: Tile, width: nat, height: nat)
    requires Builds(output, init + [last], held, image, width, height) && last.Copy? && last.count + 1 < 256
    requires last.src + last.count < height && last.dest + last.count < height
    ensures |AllBytes(init)| + 1 < |output| && |image| == height
    ensures Builds(output[|AllBytes(init)| + 1 := last.count + 1], init + [last.(count := last.count + 1)], held,
                   image[last.dest + last.count := held[last.src + last.count]], width, height)
  {
    hide AllBytes, RecordBytes, Builds, CopyRows;
    var more := last.(count := last.count + 1);
    var before := BuildsInit(output, init, last, held, image, width, height);
    BuildsMore(AllBytes(init), init, held, before, last, width, height);
    BuildsMore(AllBytes(init), init, held, before, more, width, height);
    BuildsOne(output, AllBytes(init) + RecordBytes(last), init + [last], held, image, Apply(last, held, before, width, height), width, height);
    CopyOneMore(held, before, last.count, last.src, last.dest);
    CountUp(AllBytes(init), last);
  }

  lemma BuildsInit(output: seq<Byte>, init: seq<Record>, last: Record, held: Tile, image: Tile, width: nat, height: nat)
    returns (before: Tile)
    requires Builds(output, init + [last], held, image, width, height)
    ensures Sized(held, width, height) && Fits(last, width, height) && Builds(AllBytes(init), init, held, before, width, height)
  {
    hide AllBytes, ApplyAll;
    forall i | 0 <= i < |init| ensures Fits(init[i], width, height) {
      assert (init + [last])[i] == init[i];
    }
    assert (init + [last])[|init|] == last;
    before := ApplyAll(init, held, held, width, height);
  }

  lemma BuildsOne(output: seq<Byte>, out: seq<Byte>, recs: seq<Record>, held: Tile, image: Tile, image': Tile, width: nat, height: nat)
    requires Builds(output, recs, held, image, width, height) && Builds(out, recs, held, image', width, height)
    ensures output == out && image == image'
  {
  }

  lemma CountUp(front: seq<Byte>, r: Record)
    requires r.Copy? && r.count + 1 < 256
    ensures |front| + 1 < |front + RecordBytes(r)|
    ensures (front + RecordBytes(r))[|front| + 1 := r.count + 1] == front + RecordBytes(r.(count := r.count + 1))
  {
  }

  /** The last copy is counted up exactly if it goes on with this row, and the row is not the last one; else a copy of one row is added. */
  ghost predicate CopySent(output: seq<Byte>, lastCopy: nat, row: int, y: int, height: int, out: seq<Byte>, lastCopy': nat, extended: bool) {
    && (lastCopy > 0 ==> lastCopy + 2 < |output|)
    && (extended <==> lastCopy > 0 && row + 1 < height && GoesOn(output[lastCopy], output[lastCopy + 1], output[lastCopy + 2], row, y))
    && if extended then lastCopy' == lastCopy && output[lastCopy] < 255 && out == output[lastCopy := output[lastCopy] + 1]
       else lastCopy' == |output| + 1 && 0 <= row < 256 && 0 <= y < 256 && out == output + [99, 1, row, y]
  }

  /** A copy of some rows goes on with this one. */
  predicate GoesOn(count: int, src: int, dest: int, row: int, y: int) { src + count == row && dest + count == y }

  /** Row y is row `row` of the held tile: counts the last copy up where it continues it, or adds a copy. */
  method EmitCopy(output: seq<Byte>, lastCopy: nat, row: nat, y: nat, height: nat,
                  ghost lc: nat, ghost recs: seq<Record>, ghost held: Tile, ghost image: Tile, ghost width: nat)
    returns (out: seq<Byte>, lastCopy': nat, extended: bool, ghost lc': nat, ghost rs: seq<Record>)
    requires Builds(output, recs, held, image, width, height) && LastCopyAt(lastCopy, lc, recs, y)
    requires row < height && y < height <= MAX_SIDE
    ensures |image| == height && Builds(out, rs, held, image[y := held[row]], width, height)
    ensures lastCopy' > 0 && LastCopyAt(lastCopy', lc', rs, y + 1) && rs != []
    ensures forall r :: r in rs && r.Run? ==> r in recs
    ensures CopySent(output, lastCopy, row, y, height, out, lastCopy', extended)
  {
    hide Builds, AllBytes;
    if lastCopy > 0 {
      assert output == AllBytes(recs) by { BuildsBytes(output, recs, held, image, width, height); }
      ReadCopy(lastCopy, lc, recs, y);
      var cnt := output[lastCopy];
      if output[lastCopy + 1] + cnt == row && output[lastCopy + 2] + cnt == y && output[lastCopy + 1] + cnt + 1 < height {
        ghost var init, last := recs[..lc], recs[lc];
        assert recs == init + [last];
        ExtendCopy(output, init, last, held, image, width, height);
        out, lastCopy', extended, lc' := output[lastCopy := cnt + 1], lastCopy, true, lc;
        rs := init + [last.(count := last.count + 1)];
        assert rs[..lc] == init;
        return;
      }
    }
    NewCopy(output, recs, held, image, row, y, width, height);
    out := output + [COPY, 1, row, y];
    lastCopy', extended, lc', rs := |output| + 1, false, |recs|, recs + [Copy(1, row, y)];
    assert rs[..|recs|] == recs;
  }

  lemma NewCopy(output: seq<Byte>, recs: seq<Record>, held: Tile, image: Tile, row: nat, y: nat, width: nat, height: nat)
    requires Builds(output, recs, held, image, width, height) && row < height && y < height <= MAX_SIDE
    ensures output == AllBytes(recs) && |image| == |held| == height
    ensures Builds(output + [COPY, 1, row, y], recs + [Copy(1, row, y)], held, image[y := held[row]], width, height)
  {
    BuildsMore(output, recs, held, image, Copy(1, row, y), width, height);
    assert CopyRows(held, image, 1, row, y) == image[y := held[row]];
  }

  lemma BuildsBytes(output: seq<Byte>, recs: seq<Record>, held: Tile, image: Tile, width: nat, height: nat)
    requires Builds(output, recs, held, image, width, height)
    ensures output == AllBytes(recs) && |image| == |held| == height
  {
  }

  /** A tile with its rows encoded, as the cache keeps it. */
  datatype DeltaData = DeltaData(width: nat, height: nat, rows: seq<Row>)

  ghost predicate Holds(d: DeltaData, tile: Tile) {
    TileEncodes(d.rows, tile, d.width, d.height) && d.width <= MAX_SIDE && d.height <= MAX_SIDE
  }

  /** The payload is the ended bytes of records that turn one tile into the other, or nothing if they are equal. */
  ghost predicate DeltaOf(payload: seq<Byte>, recs: seq<Record>, held: Tile, next: Tile, width: nat, height: nat) {
    && Sized(held, width, height) && AllFit(recs, width, height)
    && ApplyAll(recs, held, held, width, height) == next
    && payload == (if recs == [] then [] else AllBytes(recs) + [END])
    && (recs == [] <==> held == next)
  }

  /** Only rows that no held row equals are redrawn pixel by pixel. */
  ghost predicate RunsOnlyForNewRows(recs: seq<Record>, prevTile: Tile, curTile: Tile) {
    forall r :: r in recs && r.Run? ==> r.y < |curTile| && curTile[r.y] !in prevTile
  }

  lemma WireTileSized(t: Tile, mode: TileMode, width: nat, height: nat)
    requires Sized(t, width, height)
    ensures Sized(WireTile(t, mode), width, height)
  {
  }

  lemma BlendStep(held: Tile, next: Tile, y: nat)
    requires y < |held| == |next|
    ensures Blend(held, next, y)[y] == held[y]
    ensures Blend(held, next, y)[y := next[y]] == Blend(held, next, y + 1)
    ensures held[y] == next[y] ==> Blend(held, next, y) == Blend(held, next, y + 1)
  {
  }

  lemma WireRowInjective(a: PixelRow, b: PixelRow, mode: TileMode)
    requires WireRow(a, mode) == WireRow(b, mode)
    ensures a == b
  {
    assert |a| == |WireRow(a, mode)| == |b|;
    forall i | 0 <= i < |a| ensures a[i] == b[i] {
      assert Wire(a[i], mode) == WireRow(a, mode)[i] == WireRow(b, mode)[i] == Wire(b[i], mode);
    }
  }

  /** Redraws row y pixel by pixel. */
  method EmitRow(prevRow: Row, ghost prevPix: PixelRow, curRow: Row, ghost curPix: PixelRow, width: nat, y: Byte,
                 output: seq<Byte>, mode: TileMode, ghost recs: seq<Record>, ghost held: Tile, ghost image: Tile)
    returns (out: seq<Byte>, ghost rs: seq<Record>)
    requires Encodes(prevRow, prevPix) && Encodes(curRow, curPix) && |prevPix| == |curPix| == width <= MAX_SIDE
    requires Builds(output, recs, held, image, width, |held|) && y < |held| == |image|
    requires image[y] == WireRow(prevPix, mode) && prevPix != curPix
    ensures Builds(out, rs, held, image[y := WireRow(curPix, mode)], width, |held|)
    ensures recs < rs && forall i :: |recs| <= i < |rs| ==> rs[i].Run? && rs[i].y == y
  {
    hide Builds;
    ghost var runs;
    out, runs := DiffRowTo(prevRow, prevPix, curRow, curPix, width, y, output, mode);
    BuildsRuns(output, recs, held, image, y, out, runs, WireRow(curPix, mode), width, |held|);
    rs := recs + runs;
    DrawnChange(output, out, runs, prevPix, curPix, mode, y);
  }

  lemma DrawnChange(base: seq<Byte>, out: seq<Byte>, runs: seq<Record>, was: PixelRow, now: PixelRow, mode: TileMode, y: nat)
    requires |was| == |now| && Drawn(base, out, runs, WireRow(was, mode), WireRow(now, mode), |was|, y)
    ensures runs == [] ==> was == now
  {
    assert Blend(WireRow(was, mode), WireRow(now, mode), |was|) == WireRow(now, mode);
    if runs == [] {
      WireRowInjective(was, now, mode);
    }
  }

  /** What makeDelta carries from row to row, and what its proof carries beside it. */
  datatype Progress = Progress(output: seq<Byte>, lastMatchOffset: nat, lastCopy: nat)
  datatype Track = Track(recs: seq<Record>, lc: nat, off: int, differs: nat)

  /** The rows above y are done; `differs` is a row that made a record necessary. */
  ghost predicate UpTo(p: Progress, t: Track, prevTile: Tile, curTile: Tile, mode: TileMode, width: nat, height: nat, y: nat) {
    && Sized(prevTile, width, height) && Sized(curTile, width, height) && y <= height
    && Builds(p.output, t.recs, WireTile(prevTile, mode), Blend(WireTile(prevTile, mode), WireTile(curTile, mode), y), width, height)
    && LastCopyAt(p.lastCopy, t.lc, t.recs, y)
    && -256 < t.off < 256 && 0 <= y + t.off && p.lastMatchOffset == t.off % U64
    && (t.recs != [] ==> t.differs < y && prevTile[t.differs] != curTile[t.differs])
    && RunsOnlyForNewRows(t.recs, prevTile, curTile)
  }

  /** Row y differs from the held one: copies an equal row, or redraws it. */
  method ChangedRow(prev: DeltaData, ghost prevTile: Tile, cur: DeltaData, ghost curTile: Tile, mode: TileMode, y: nat,
                    p: Progress, ghost t: Track)
    returns (p': Progress, ghost t': Track, ghost found: Option<nat>)
    requires Holds(prev, prevTile) && Holds(cur, curTile) && prev.width == cur.width && prev.height == cur.height
    requires UpTo(p, t, prevTile, curTile, mode, cur.width, cur.height, y)
    requires y < cur.height && prevTile[y] != curTile[y]
    ensures UpTo(p', t', prevTile, curTile, mode, cur.width, cur.height, y + 1)
    ensures found.None? <==> curTile[y] !in prevTile
    ensures found.None? ==> p' == p.(output := p'.output)
    ensures found.Some? ==> FirstFound(prevTile, curTile[y], y + t.off, found.value)
    ensures found.Some? ==> p'.lastMatchOffset == if |p'.output| == |p.output| then p.lastMatchOffset else (found.value - y) % U64
  {
    hide Builds, LastCopyAt, RunsOnlyForNewRows, Blend, FirstFound;
    ghost var held, next := WireTile(prevTile, mode), WireTile(curTile, mode);
    ghost var image := Blend(held, next, y);
    BlendStep(held, next, y);
    var matched, row := FindRow(prev.rows, prevTile, cur.rows[y], curTile[y], cur.width, y, p.lastMatchOffset, t.off);
    if matched {
      var out, lastCopy, extended;
      ghost var lc, recs;
      out, lastCopy, extended, lc, recs := EmitCopy(p.output, p.lastCopy, row, y, prev.height, t.lc, t.recs, held, image, cur.width);
      RunsStayNew(t.recs, recs, prevTile, curTile);
      found := Some(row);
      p' := Progress(out, if extended then p.lastMatchOffset else (row - y) % U64, lastCopy);
      t' := Track(recs, lc, if extended then t.off else row - y, y);
    } else {
      var out;
      ghost var recs;
      out, recs := EmitRow(prev.rows[y], prevTile[y], cur.rows[y], curTile[y], prev.width, y, p.output, mode, t.recs, held, image);
      LastCopyLater(p.lastCopy, t.lc, t.recs, recs, y);
      RunsAddNew(t.recs, recs, y, prevTile, curTile);
      p', t', found := p.(output := out), t.(recs := recs, differs := y), None;
    }
  }

  lemma UpToSame(p: Progress, t: Track, prevTile: Tile, curTile: Tile, mode: TileMode, width: nat, height: nat, y: nat)
    requires UpTo(p, t, prevTile, curTile, mode, width, height, y) && y < height && prevTile[y] == curTile[y]
    ensures UpTo(p, t, prevTile, curTile, mode, width, height, y + 1)
  {
    BlendStep(WireTile(prevTile, mode), WireTile(curTile, mode), y);
    LastCopyLater(p.lastCopy, t.lc, t.recs, t.recs, y);
  }

  lemma UpToNone(prevTile: Tile, curTile: Tile, mode: TileMode, width: nat, height: nat)
    requires Sized(prevTile, width, height) && Sized(curTile, width, height)
    ensures UpTo(Progress([], 0, 0), Track([], 0, 0, 0), prevTile, curTile, mode, width, height, 0)
  {
    var held, next := WireTile(prevTile, mode), WireTile(curTile, mode);
    assert Blend(held, next, 0) == held;
  }

  /** A delta from the previous to the current tile; fails only on tiles of different size. */
  method MakeDelta(prev: DeltaData, ghost prevTile: Tile, cur: DeltaData, ghost curTile: Tile, mode: TileMode)
    returns (ok: bool, payload: seq<Byte>, ghost recs: seq<Record>)
    requires Holds(prev, prevTile) && Holds(cur, curTile)
    ensures ok <==> prev.width == cur.width && prev.height == cur.height
    ensures ok ==> DeltaOf(payload, recs, WireTile(prevTile, mode), WireTile(curTile, mode), cur.width, cur.height)
    ensures ok ==> (payload == [] <==> prevTile == curTile) && RunsOnlyForNewRows(recs, prevTile, curTile)
  {
    ok, payload, recs := prev.width == cur.width && prev.height == cur.height, [], [];
    if !ok {
      return;
    }
    hide UpTo, DeltaOf, RunsOnlyForNewRows, Holds, WireTile;
    var p;
    ghost var t;
    p, t := DeltaRows(prev, prevTile, cur, curTile, mode);
    recs := t.recs;
    payload := if p.output == [] then [] else p.output + [END];
    UpToDelta(p, t, prevTile, curTile, mode, cur.width, cur.height);
  }

  /** Goes through the rows from the top. */
  method DeltaRows(prev: DeltaData, ghost prevTile: Tile, cur: DeltaData, ghost curTile: Tile, mode: TileMode)
    returns (p: Progress, ghost t: Track)
    requires Holds(prev, prevTile) && Holds(cur, curTile) && prev.width == cur.width && prev.height == cur.height
    ensures UpTo(p, t, prevTile, curTile, mode, cur.width, cur.height, cur.height)
  {
    hide UpTo, Holds, Identical;
    p, t := Progress([], 0, 0), Track([], 0, 0, 0);
    HoldsSized(prev, prevTile, cur, curTile);
    UpToNone(prevTile, curTile, mode, cur.width, cur.height);
    for y := 0 to prev.height
      invariant UpTo(p, t, prevTile, curTile, mode, cur.width, cur.height, y)
    {
      if Identical(prev.rows[y], cur.rows[y]) {
        UpToSame(p, t, prevTile, curTile, mode, cur.width, cur.height, y);
      } else {
        ghost var found;
        p, t, found := ChangedRow(prev, prevTile, cur, curTile, mode, y, p, t);
      }
    }
  }

  lemma HoldsSized(prev: DeltaData, prevTile: Tile, cur: DeltaData, curTile: Tile)
    requires Holds(prev, prevTile) && Holds(cur, curTile) && prev.width == cur.width && prev.height == cur.height
    ensures Sized(prevTile, cur.width, cur.height) && Sized(curTile, cur.width, cur.height)
    ensures |prev.rows| == |cur.rows| == cur.height
    ensures forall y :: 0 <= y < cur.height ==> (Identical(prev.rows[y], cur.rows[y]) <==> prevTile[y] == curTile[y])
  {
    forall y | 0 <= y < cur.height ensures Identical(prev.rows[y], cur.rows[y]) <==> prevTile[y] == curTile[y] {
      IdenticalIffEqualPixels(prev.rows[y], prevTile[y], cur.rows[y], curTile[y]);
    }
  }

  /** What the loop built is a delta. */
  lemma UpToDelta(p: Progress, t: Track, prevTile: Tile, curTile: Tile, mode: TileMode, width: nat, height: nat)
    requires UpTo(p, t, prevTile, curTile, mode, width, height, height)
    ensures DeltaOf(if p.output == [] then [] else p.output + [END], t.recs,
                    WireTile(prevTile, mode), WireTile(curTile, mode), width, height)
    ensures p.output == [] <==> prevTile == curTile
    ensures RunsOnlyForNewRows(t.recs, prevTile, curTile)
  {
    var held, next := WireTile(prevTile, mode), WireTile(curTile, mode);
    assert Blend(held, next, height) == next;
    assert t.recs != [] ==> |RecordBytes(t.recs[0])| > 0;
    if held == next {
      forall y | 0 <= y < height ensures prevTile[y] == curTile[y] {
        assert WireRow(prevTile[y], mode) == held[y] == next[y] == WireRow(curTile[y], mode);
        WireRowInjective(prevTile[y], curTile[y], mode);
      }
      assert prevTile == curTile;
    }
  }

  lemma RunsStayNew(recs: seq<Record>, rs: seq<Record>, prevTile: Tile, curTile: Tile)
    requires RunsOnlyForNewRows(recs, prevTile, curTile) && forall r :: r in rs && r.Run? ==> r in recs
    ensures RunsOnlyForNewRows(rs, prevTile, curTile)
  {
  }

  lemma RunsAddNew(recs: seq<Record>, rs: seq<Record>, y: nat, prevTile: Tile, curTile: Tile)
    requires RunsOnlyForNewRows(recs, prevTile, curTile) && recs <= rs && y < |curTile|
    requires forall i :: |recs| <= i < |rs| ==> rs[i].Run? && rs[i].y == y
    requires forall r :: 0 <= r < |prevTile| ==> prevTile[r] != curTile[y]
    ensures RunsOnlyForNewRows(rs, prevTile, curTile)
  {
    forall r | r in rs && r.Run? ensures r.y < |curTile| && curTile[r.y] !in prevTile {
      var i :| 0 <= i < |rs| && rs[i] == r;
      if i < |recs| {
        assert recs[i] == r;
      }
    }
  }

  lemma LastCopyLater(lastCopy: nat, lc: nat, recs: seq<Record>, rs: seq<Record>, y: nat)
    requires LastCopyAt(lastCopy, lc, recs, y) && recs <= rs
    ensures LastCopyAt(lastCopy, lc, rs, y + 1)
  {
    if lastCopy > 0 {
      assert rs[..lc] == recs[..lc];
    }
  }
}
