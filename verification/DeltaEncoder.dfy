/** The difference of two rows as runs of pixels (kit/Delta.hpp). */
module DeltaEncoder {
  import opened Pixels
  import opened DeltaRow
  import opened DeltaClient

  const MAX_SIDE := 256
  const MAX_RUN := 254

  lemma AtPixel(it: PixIterator)
    requires it.Valid() && 0 < it.steps <= |it.pixels| <= MAX_SIDE
    ensures it.lastPix == it.pixels[it.steps - 1]
  {
  }

  lemma SliceGrows<T>(s: seq<T>, x: nat, n: nat)
    requires x + n < |s|
    ensures s[x .. x + n] + [s[x + n]] == s[x .. x + n + 1]
  {
  }

  /** Advances two iterators over the pixels they share from column x on. */
  method SkipSame(a: PixIterator, b: PixIterator, x: nat, width: nat) returns (same: nat)
    requires a != b && a.Valid() && b.Valid() && a.steps == b.steps == x + 1
    requires x <= |a.pixels| == |b.pixels| == width <= MAX_SIDE
    modifies a, b
    ensures a.Valid() && b.Valid() && a.steps == b.steps == x + same + 1
    ensures x + same <= width && forall i :: x <= i < x + same ==> a.pixels[i] == b.pixels[i]
    ensures x + same < width ==> a.pixels[x + same] != b.pixels[x + same]
  {
    hide PixIterator.Valid;
    same := 0;
    if x < width {
      AtPixel(a);
      AtPixel(b);
    }
    while same + x < width && a.lastPix == b.lastPix
      invariant a.Valid() && b.Valid() && a.steps == b.steps == x + same + 1
      invariant x + same <= width && forall i :: x <= i < x + same ==> a.pixels[i] == b.pixels[i]
      invariant x + same < width ==> a.lastPix == a.pixels[x + same] && b.lastPix == b.pixels[x + same]
    {
      a.Next();
      b.Next();
      same := same + 1;
      if x + same < width {
        AtPixel(a);
        AtPixel(b);
      }
    }
  }

  /** Collects b's pixels from column x on, until the rows agree again for long enough to stop. */
  method TakeDifferent(a: PixIterator, b: PixIterator, x: nat, width: nat) returns (scratch: PixelRow)
    requires a != b && a.Valid() && b.Valid() && a.steps == b.steps == x + 1
    requires x <= |a.pixels| == |b.pixels| == width <= MAX_SIDE
    modifies a, b
    ensures a.Valid() && b.Valid() && a.steps == b.steps == x + |scratch| + 1
    ensures |scratch| <= MAX_RUN && x + |scratch| <= width && scratch == b.pixels[x .. x + |scratch|]
    ensures x < width ==> scratch != []
    ensures forall i :: x + 3 <= i < x + |scratch| ==> a.pixels[i] != b.pixels[i]
    ensures x + |scratch| < width && |scratch| < MAX_RUN ==>
              |scratch| >= 3 && a.pixels[x + |scratch|] == b.pixels[x + |scratch|]
  {
    hide PixIterator.Valid;
    scratch := [];
    if x < width {
      AtPixel(a);
      AtPixel(b);
    }
    while |scratch| + x < width && (a.lastPix != b.lastPix || |scratch| < 3) && |scratch| < MAX_RUN
      invariant a.Valid() && b.Valid() && a.steps == b.steps == x + |scratch| + 1
      invariant |scratch| <= MAX_RUN && x + |scratch| <= width && scratch == b.pixels[x .. x + |scratch|]
      invariant forall i :: x + 3 <= i < x + |scratch| ==> a.pixels[i] != b.pixels[i]
      invariant x + |scratch| < width ==> a.lastPix == a.pixels[x + |scratch|] && b.lastPix == b.pixels[x + |scratch|]
    {
      SliceGrows(b.pixels, x, |scratch|);
      a.Next();
      scratch := scratch + [b.lastPix];
      b.Next();
      if x + |scratch| < width {
        AtPixel(a);
        AtPixel(b);
      }
    }
  }

  /** The next run of pixels to send from column x on: where it starts and what it holds. */
  method NextRun(a: PixIterator, b: PixIterator, x: nat, width: nat) returns (start: nat, scratch: PixelRow)
    requires a != b && a.Valid() && b.Valid() && a.steps == b.steps == x + 1
    requires x <= |a.pixels| == |b.pixels| == width <= MAX_SIDE
    modifies a, b
    ensures a.Valid() && b.Valid() && a.steps == b.steps == start + |scratch| + 1
    ensures x <= start && start + |scratch| <= width && forall i :: x <= i < start ==> a.pixels[i] == b.pixels[i]
    ensures |scratch| <= 254 && scratch == b.pixels[start .. start + |scratch|]
    ensures start < width ==> scratch != [] && a.pixels[start] != b.pixels[start]
    ensures forall i :: start + 3 <= i < start + |scratch| ==> a.pixels[i] != b.pixels[i]
    ensures start + |scratch| < width && |scratch| < 254 ==>
              |scratch| >= 3 && a.pixels[start + |scratch|] == b.pixels[start + |scratch|]
  {
    var same := SkipSame(a, b, x, width);
    start := x + same;
    scratch := TakeDifferent(a, b, start, width);
  }

  /** The records are runs on row y, inside its width and of at most 254 pixels. */
  ghost predicate OnRow(runs: seq<Record>, y: nat, width: nat) {
    forall i :: 0 <= i < |runs| ==>
      && runs[i].Run? && runs[i].y == y && runs[i].x + |runs[i].pixels| <= width
      && 0 < |runs[i].pixels| <= MAX_RUN
  }

  /** A row after the runs have been painted over it. */
  ghost function PaintRow(row: PixelRow, runs: seq<Record>, y: nat): (r: PixelRow)
    requires OnRow(runs, y, |row|)
    ensures |r| == |row|
    decreases |runs|
  {
    if runs == [] then row
    else
      var before := PaintRow(row, runs[..|runs| - 1], y);
      var last := runs[|runs| - 1];
      Overlay(before, last.x, last.pixels)
  }

  ghost function Overlay(row: PixelRow, x: nat, pixels: PixelRow): (r: PixelRow)
    requires x + |pixels| <= |row|
    ensures |r| == |row|
  {
    row[..x] + pixels + row[x + |pixels|..]
  }

  /** The new row left of column x, or the new rows above row x; the old from there on. */
  ghost function Blend<T>(was: seq<T>, now: seq<T>, x: nat): (r: seq<T>)
    requires x <= |was| == |now|
    ensures |r| == |was|
  {
    now[..x] + was[x..]
  }

  /** The runs sent after `base` draw the new row left of column x over the old one. */
  ghost predicate Drawn(base: seq<Byte>, out: seq<Byte>, runs: seq<Record>, was: PixelRow, now: PixelRow, x: nat, y: nat) {
    && x <= |was| == |now|
    && OnRow(runs, y, |was|)
    && out == base + AllBytes(runs)
    && PaintRow(was, runs, y) == Blend(was, now, x)
  }

  lemma DrawnStart(base: seq<Byte>, was: PixelRow, now: PixelRow, y: nat)
    requires |was| == |now|
    ensures Drawn(base, base, [], was, now, 0, y)
  {
  }

  lemma DrawnSkip(base: seq<Byte>, out: seq<Byte>, runs: seq<Record>, was: PixelRow, now: PixelRow, x: nat, x': nat, y: nat)
    requires Drawn(base, out, runs, was, now, x, y)
    requires x <= x' <= |was| && forall i :: x <= i < x' ==> was[i] == now[i]
    ensures Drawn(base, out, runs, was, now, x', y)
  {
    assert Blend(was, now, x) == Blend(was, now, x');
  }

  lemma PaintMore(was: PixelRow, now: PixelRow, x: nat, runs: seq<Record>, y: nat, r: Record, n: nat)
    requires OnRow(runs, y, |was|) && r.Run? && r.y == y && r.x == x && 0 < |r.pixels| == n <= MAX_RUN
    requires x + n <= |was| == |now| && r.pixels == now[x .. x + n] && PaintRow(was, runs, y) == Blend(was, now, x)
    ensures OnRow(runs + [r], y, |was|)
    ensures PaintRow(was, runs + [r], y) == Blend(was, now, x + n)
  {
    OnRowMore(runs, y, |was|, r);
    assert PaintRow(was, runs + [r], y) == Blend(was, now, x + n) by {
      hide *;
      PaintLast(was, runs, y, r);
      BlendMore(was, now, x, n);
    }
  }

  lemma OnRowMore(runs: seq<Record>, y: nat, width: nat, r: Record)
    requires OnRow(runs, y, width) && r.Run? && r.y == y && r.x + |r.pixels| <= width && 0 < |r.pixels| <= MAX_RUN
    ensures OnRow(runs + [r], y, width)
  {
  }

  lemma PaintLast(was: PixelRow, runs: seq<Record>, y: nat, r: Record)
    requires r.Run? && r.x + |r.pixels| <= |was| && OnRow(runs, y, |was|) && OnRow(runs + [r], y, |was|)
    ensures PaintRow(was, runs + [r], y) == Overlay(PaintRow(was, runs, y), r.x, r.pixels)
  {
    hide OnRow, Overlay;
    assert (runs + [r])[..|runs|] == runs;
  }

  lemma BlendMore(was: PixelRow, now: PixelRow, x: nat, n: nat)
    requires x + n <= |was| == |now|
    ensures Overlay(Blend(was, now, x), x, now[x .. x + n]) == Blend(was, now, x + n)
  {
    var before := Blend(was, now, x);
    assert before[..x] == now[..x] && before[x + n..] == was[x + n..];
    assert now[..x] + now[x .. x + n] == now[..x + n];
  }

  /** Sends one run of current pixels at column x. */
  method EmitRun(ghost base: seq<Byte>, output: seq<Byte>, ghost runs: seq<Record>, ghost was: PixelRow, ghost now: PixelRow,
                 y: Byte, x: Byte, scratch: PixelRow, mode: TileMode)
    returns (out: seq<Byte>, ghost r: Record)
    requires Drawn(base, output, runs, was, now, x, y) && 0 < |scratch| <= MAX_RUN
    requires x + |scratch| <= |was| && WireRow(scratch, mode) == now[x .. x + |scratch|]
    ensures Drawn(base, out, runs + [r], was, now, x + |scratch|, y) && |out| == |output| + 4 + 4 * |scratch|
    ensures r.Run? && r.x == x
  {
    hide OnRow, PaintRow, Blend, AllBytes, Exchanged;
    r := Run(y, x, WireRow(scratch, mode));
    var wire := CopyRow(RowBytes(scratch), scratch, mode);
    var header: seq<Byte> := [RUN, y, x, |scratch|];
    out := output + (header + wire);
    BytesAppend(runs, r);
    assert header + wire == RecordBytes(r);
    hide RecordBytes;
    assert base + AllBytes(runs) + RecordBytes(r) == base + (AllBytes(runs) + RecordBytes(r));
    PaintMore(was, now, x, runs, y, r, |scratch|);
  }

  /** Each run accounts for at least four pixels, counting those between it and the next; the last one starts at lastX or before. */
  ghost predicate Apart(runs: seq<Record>, lastX: int) {
    && (forall i :: 0 <= i < |runs| ==> runs[i].Run? && runs[i].x + 4 * (|runs| - 1 - i) <= lastX)
    && (forall i, j :: 0 <= i < j < |runs| ==> runs[i].x + 4 * (j - i) <= runs[j].x)
  }

  lemma ApartNone()
    ensures Apart([], -4)
  {
  }

  lemma ApartWider(runs: seq<Record>, lastX: int, x: int)
    requires Apart(runs, lastX) && lastX <= x
    ensures Apart(runs, x)
  {
  }

  lemma ApartMore(runs: seq<Record>, lastX: int, r: Record)
    requires Apart(runs, lastX) && r.Run? && lastX + 4 <= r.x
    ensures Apart(runs + [r], r.x)
  {
  }

  /** Sends the records that turn the old row into the current one, as row curY of a tile. */
  method DiffRowTo(oldRow: Row, ghost oldPix: PixelRow, curRow: Row, ghost curPix: PixelRow,
                   width: nat, curY: Byte, output: seq<Byte>, mode: TileMode)
    returns (out: seq<Byte>, ghost runs: seq<Record>)
    requires Encodes(oldRow, oldPix) && Encodes(curRow, curPix) && |oldPix| == |curPix| == width <= MAX_SIDE
    ensures Drawn(output, out, runs, WireRow(oldPix, mode), WireRow(curPix, mode), width, curY)
    ensures |out| - |output| <= 4 * width + 4 * ((width + 3) / 4) && Apart(runs, width - 1)
  {
    hide Drawn, PixIterator.Valid, Apart;
    var oldPixels := new PixIterator(oldRow, oldPix);
    var curPixels := new PixIterator(curRow, curPix);
    var x := 0;
    out, runs := output, [];
    ghost var was, now := WireRow(oldPix, mode), WireRow(curPix, mode);
    ghost var n, lastX := 0, -4;
    DrawnStart(output, was, now, curY);
    ApartNone();
    while x < width
      invariant oldPixels.Valid() && curPixels.Valid() && oldPixels != curPixels && fresh(oldPixels) && fresh(curPixels)
      invariant oldPixels.pixels == oldPix && curPixels.pixels == curPix
      invariant x <= width && oldPixels.steps == curPixels.steps == x + 1
      invariant Drawn(output, out, runs, was, now, x, curY) && n == |runs| && |out| - |output| <= 4 * x + 4 * n
      invariant Apart(runs, lastX) && lastX < width && 4 * n <= lastX + 4
      invariant x < width ==> lastX + 3 <= x && (oldPix[x] != curPix[x] ==> lastX + 4 <= x)
      decreases width - x
    {
      var start, scratch := NextRun(oldPixels, curPixels, x, width);
      DrawnSkip(output, out, runs, was, now, x, start, curY);
      x := start;
      if |scratch| > 0 {
        WireSlice(curPix, mode, x, x + |scratch|);
        ghost var r;
        out, r := EmitRun(output, out, runs, was, now, curY, x, scratch, mode);
        ApartMore(runs, lastX, r);
        runs, n, lastX, x := runs + [r], n + 1, x, x + |scratch|;
      }
    }
    ApartWider(runs, lastX, width - 1);
  }

  /** The bytes and records so far turn the held tile into `image`. */
  ghost predicate Builds(output: seq<Byte>, recs: seq<Record>, held: Tile, image: Tile, width: nat, height: nat) {
    && Sized(held, width, height)
    && AllFit(recs, width, height)
    && output == AllBytes(recs)
    && ApplyAll(recs, held, held, width, height) == image
  }

  lemma BuildsMore(output: seq<Byte>, recs: seq<Record>, held: Tile, image: Tile, r: Record, width: nat, height: nat)
    requires Builds(output, recs, held, image, width, height) && Fits(r, width, height)
    ensures Sized(image, width, height)
    ensures Builds(output + RecordBytes(r), recs + [r], held, Apply(r, held, image, width, height), width, height)
  {
    BytesAppend(recs, r);
    ApplyConcat(recs, [r], held, held, width, height);
    ApplySingle(r, held, image, width, height);
  }

  lemma ApplySingle(r: Record, held: Tile, image: Tile, width: nat, height: nat)
    requires Sized(held, width, height) && Sized(image, width, height) && Fits(r, width, height)
    ensures ApplyAll([r], held, image, width, height) == Apply(r, held, image, width, height)
  {
    assert [r][1..] == [];
  }

  /** Runs on one row paint that row and leave the others. */
  lemma {:induction false} RunsPaint(runs: seq<Record>, held: Tile, image: Tile, y: nat, width: nat, height: nat)
    requires Sized(held, width, height) && Sized(image, width, height) && y < height && OnRow(runs, y, width)
    ensures AllFit(runs, width, height)
    ensures ApplyAll(runs, held, image, width, height) == image[y := PaintRow(image[y], runs, y)]
    decreases |runs|
  {
    if runs != [] {
      var init, last := runs[..|runs| - 1], runs[|runs| - 1];
      assert runs == init + [last];
      RunsPaint(init, held, image, y, width, height);
      ApplyConcat(init, [last], held, image, width, height);
      var before := image[y := PaintRow(image[y], init, y)];
      ApplySingle(last, held, before, width, height);
    }
  }

  lemma BuildsRuns(output: seq<Byte>, recs: seq<Record>, held: Tile, image: Tile, y: nat, out: seq<Byte>, runs: seq<Record>,
                   now: PixelRow, width: nat, height: nat)
    requires Builds(output, recs, held, image, width, height) && y < height && |now| == width
    requires |image| == height && Drawn(output, out, runs, image[y], now, width, y)
    ensures Builds(out, recs + runs, held, image[y := now], width, height)
  {
    RunsPaint(runs, held, image, y, width, height);
    ApplyConcat(recs, runs, held, held, width, height);
    BytesConcat(recs, runs);
    assert Blend(image[y], now, width) == now;
  }
}
