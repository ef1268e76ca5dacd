/** A run-length encoded pixel row and the iterator that replays it (kit/Delta.hpp). */
module DeltaRow {
  import opened Arith
  import opened Pixels

  /** Mask words per row, and the pixels they can describe. */
  const MASK_UNITS := 4
  const MASKED := 256

  /** `masks` are the mask words, each the set of its one bits; `data` the changed pixels. */
  datatype Row = Row(masks: seq<set<nat>>, data: PixelRow)

  /** The word whose low k bits are one. */
  function LowBits(k: nat): (s: set<nat>)
    ensures forall b: nat :: b in s <==> b < k
  {
    if k == 0 then {} else LowBits(k - 1) + {k - 1}
  }

  /** The pixel to the left of x; a row starts from transparency. */
  function Before(p: PixelRow, x: nat): Pixel
    requires x <= |p|
  {
    if x == 0 then TRANSPARENT else p[x - 1]
  }

  predicate Repeats(p: PixelRow, x: nat)
    requires x < |p|
  {
    p[x] == Before(p, x)
  }

  /** The pixels among the first n that differ from their left neighbour. */
  ghost function Changes(p: PixelRow, n: nat): PixelRow
    requires n <= |p|
  {
    if n == 0 then [] else Changes(p, n - 1) + if Repeats(p, n - 1) then [] else [p[n - 1]]
  }

  ghost predicate MaskAgrees(masks: seq<set<nat>>, p: PixelRow, upTo: nat)
    requires upTo <= |p|
  {
    && |masks| == MASK_UNITS
    && forall m, b: nat :: 0 <= m < MASK_UNITS ==>
         (b in masks[m] <==> b < 64 && 64 * m + b < upTo && Repeats(p, 64 * m + b))
  }

  /** What an encoded row has to say about its pixels, for every width. */
  ghost predicate Encodes(row: Row, p: PixelRow) {
    var n := Min(|p|, MASKED);
    MaskAgrees(row.masks, p, n) && row.data == Changes(p, n) + p[n..]
  }

  lemma {:induction false} ChangesGrow(p: PixelRow, m: nat, n: nat)
    requires m <= n <= |p|
    ensures |Changes(p, m)| <= m
    ensures Changes(p, m) <= Changes(p, n)
    ensures |Changes(p, n)| - |Changes(p, m)| <= n - m
  {
    if m < n {
      ChangesGrow(p, m, n - 1);
    } else if m > 0 {
      ChangesGrow(p, m - 1, n - 1);
    }
  }

  /** No change after m means that the pixel before m persists. */
  lemma {:induction false} NoMoreChanges(p: PixelRow, m: nat, n: nat)
    requires m <= n <= |p| && |Changes(p, m)| == |Changes(p, n)|
    ensures Before(p, m) == Before(p, n)
  {
    if m < n {
      ChangesGrow(p, m, n - 1);
      ChangesGrow(p, n - 1, n);
      NoMoreChanges(p, m, n - 1);
    }
  }

  lemma EncodingUnique(a: Row, b: Row, p: PixelRow)
    requires Encodes(a, p) && Encodes(b, p)
    ensures a == b
  {
    forall m | 0 <= m < MASK_UNITS ensures a.masks[m] == b.masks[m] {
      assert forall k: nat :: k in a.masks[m] <==> k in b.masks[m];
    }
    assert a.masks == b.masks;
  }

  /** One mask word of the scalar encoder: a whole 64 bit chunk, or the shorter rest of the row. */
  method EncodeChunk(from: PixelRow, x0: nat, lastPix0: Pixel, scratch: array<Pixel>, outp0: nat)
    returns (x: nat, lastPix: Pixel, outp: nat, rleMask: set<nat>)
    requires x0 <= |from| <= scratch.Length
    requires outp0 == |Changes(from, x0)| <= x0 && scratch[..outp0] == Changes(from, x0)
    requires lastPix0 == Before(from, x0)
    modifies scratch
    ensures x == Min(x0 + 64, |from|)
    ensures outp == |Changes(from, x)| <= x && scratch[..outp] == Changes(from, x)
    ensures lastPix == Before(from, x)
    ensures forall b: nat :: b in rleMask <==> b < x - x0 && Repeats(from, x0 + b)
  {
    var width := |from|;
    x, lastPix, outp, rleMask := x0, lastPix0, outp0, {};
    var bitToSet := 0;
    // whole chunks run until the bit falls off the word, shorter ones until the row ends
    var wholeChunk := width - x > 64;
    while if wholeChunk then bitToSet < 64 else x < width
      invariant x == x0 + bitToSet <= width && bitToSet <= 64
      invariant outp == |Changes(from, x)| <= x && scratch[..outp] == Changes(from, x)
      invariant lastPix == Before(from, x)
      invariant forall b: nat :: b in rleMask <==> b < bitToSet && Repeats(from, x0 + b)
      decreases width - x
    {
      if from[x] == lastPix {
        rleMask := rleMask + {bitToSet};
      } else {
        lastPix := from[x];
        scratch[outp] := lastPix;
        outp := outp + 1;
      }
      x, bitToSet := x + 1, bitToSet + 1;
    }
  }

  /** Copies pixels behind those already packed. */
  method CopyTail(tail: PixelRow, scratch: array<Pixel>, at: nat)
    requires at + |tail| <= scratch.Length
    modifies scratch
    ensures scratch[..at] == old(scratch[..at]) && scratch[at .. at + |tail|] == tail
  {
    for i := 0 to |tail|
      invariant forall k :: 0 <= k < at ==> scratch[k] == old(scratch[k])
      invariant forall k :: at <= k < at + i ==> scratch[k] == tail[k - at]
    {
      scratch[at + i] := tail[i];
    }
  }

  /** The scalar encoder: fills scratch and returns its used length and the mask words. */
  method InitPixRowCpu(from: PixelRow, scratch: array<Pixel>) returns (scratchLen: nat, rleMaskBlock: seq<set<nat>>)
    requires scratch.Length >= |from|
    modifies scratch
    ensures scratchLen <= scratch.Length
    ensures Encodes(Row(rleMaskBlock, scratch[..scratchLen]), from)
  {
    var width := |from|;
    var lastPix := TRANSPARENT;
    var x, outp := 0, 0;
    rleMaskBlock := [{}, {}, {}, {}];
    for nMask := 0 to MASK_UNITS
      invariant x == Min(64 * nMask, width)
      invariant outp == |Changes(from, x)| <= x && scratch[..outp] == Changes(from, x)
      invariant lastPix == Before(from, x)
      invariant MaskAgrees(rleMaskBlock, from, x)
    {
      var rleMask;
      x, lastPix, outp, rleMask := EncodeChunk(from, x, lastPix, scratch, outp);
      rleMaskBlock := rleMaskBlock[nMask := rleMask];
    }
    ghost var n, packed := x, scratch[..outp];
    if x < width {
      CopyTail(from[x..], scratch, outp);
      outp := outp + (width - x);
    }
    scratchLen := outp;
    assert scratch[..scratchLen] == packed + from[n..];
  }

  /** Row equality as the cache decides it: run length, mask words, run pixels. */
  predicate Identical(a: Row, b: Row) {
    |a.data| == |b.data| && a.masks == b.masks && a.data == b.data
  }

  lemma {:induction false} ChangesPrefix(p: PixelRow, q: PixelRow, x: nat)
    requires x <= |p| && x <= |q| && p[..x] == q[..x]
    ensures Changes(p, x) == Changes(q, x)
  {
    if x > 0 {
      assert p[x - 1] == p[..x][x - 1] == q[x - 1];
      assert x > 1 ==> p[x - 2] == p[..x][x - 2] == q[x - 2];
      assert p[..x - 1] == p[..x][..x - 1] == q[..x - 1];
      ChangesPrefix(p, q, x - 1);
    }
  }

  /** An encoded row determines each pixel from the ones before it. */
  lemma PixelAt(row: Row, p: PixelRow, y: nat)
    requires Encodes(row, p) && y < Min(|p|, MASKED)
    ensures if y % 64 in row.masks[y / 64] then p[y] == Before(p, y)
            else |Changes(p, y)| < |row.data| && p[y] == row.data[|Changes(p, y)|]
  {
    assert Repeats(p, 64 * (y / 64) + y % 64) <==> y % 64 in row.masks[y / 64];
    ChangesGrow(p, y + 1, Min(|p|, MASKED));
  }

  lemma {:induction false} DecodingUnique(row: Row, p: PixelRow, q: PixelRow, x: nat)
    requires Encodes(row, p) && Encodes(row, q) && |p| == |q| && x <= Min(|p|, MASKED)
    ensures p[..x] == q[..x]
  {
    if x > 0 {
      var y := x - 1;
      DecodingUnique(row, p, q, y);
      ChangesPrefix(p, q, y);
      PixelAt(row, p, y);
      PixelAt(row, q, y);
      assert p[..x] == p[..y] + [p[y]] && q[..x] == q[..y] + [q[y]];
      assert y > 0 ==> p[y - 1] == p[..y][y - 1] == q[..y][y - 1] == q[y - 1];
    }
  }

  /** Rows of the same width, whatever it is, are identical exactly when their pixels are equal. */
  lemma IdenticalIffEqualPixels(a: Row, p: PixelRow, b: Row, q: PixelRow)
    requires Encodes(a, p) && Encodes(b, q) && |p| == |q|
    ensures Identical(a, b) <==> p == q
  {
    if p == q {
      EncodingUnique(a, b, p);
    }
    if Identical(a, b) {
      var n := Min(|p|, MASKED);
      DecodingUnique(a, p, q, n);
      ChangesPrefix(p, q, n);
      assert p[n..] == a.data[|Changes(p, n)|..] == q[n..];
      assert p == p[..n] + p[n..] && q == q[..n] + q[n..];
    }
  }

  /**
   * The pixel an iterator shows after c > 0 steps over a row of pixels p: pixel c - 1, where
   * pixels past the masked ones, and steps past the row, repeat the last one shown.
   */
  ghost function Shown(p: PixelRow, c: nat): Pixel {
    Before(p, Min(c, Min(|p|, MASKED)))
  }

  /** How many changes c steps have passed. */
  ghost function Passed(p: PixelRow, c: nat): nat {
    |Changes(p, Min(c, Min(|p|, MASKED)))|
  }

  /** Pixel c is among the masked ones and differs from its left neighbour. */
  ghost predicate ChangesAt(p: PixelRow, c: nat) {
    c < Min(|p|, MASKED) && !Repeats(p, c)
  }

  class PixIterator {
    const row: Row
    ghost const pixels: PixelRow
    ghost var steps: nat
    var nMask: nat
    var lastPix: Pixel
    var lastMask: set<nat>
    var bitToCheck: nat
    var rlePtr: nat

    /** Which bit of the mask words is next, while there is run data left. */
    ghost predicate AtStep()
      reads this
    {
      || (nMask == 0 && steps == 0 && bitToCheck == 64)
      || (1 <= nMask <= MASK_UNITS && nMask <= |row.masks| && lastMask == row.masks[nMask - 1]
          && steps == 64 * (nMask - 1) + bitToCheck && bitToCheck <= 64)
      || (steps >= MASKED && nMask == MASK_UNITS && lastMask == LowBits(64) && bitToCheck <= 64)
    }

    ghost predicate Valid()
      reads this
    {
      && Encodes(row, pixels)
      && rlePtr <= |row.data|
      && lastPix == Shown(pixels, steps)
      && rlePtr == Passed(pixels, steps)
      && (rlePtr < |row.data| ==> AtStep())
    }

    constructor (row: Row, ghost pixels: PixelRow)
      requires Encodes(row, pixels)
      ensures Valid() && fresh(this) && this.row == row && this.pixels == pixels && steps == 1
    {
      this.row := row;
      this.pixels := pixels;
      steps := 0;
      nMask := 0;
      lastPix := TRANSPARENT;
      lastMask := {};
      bitToCheck := 64;
      rlePtr := 0;
      new;
      Next();
    }

    /** Fetches the next mask word once the current one is used up. */
    method LoadMask()
      requires Valid() && rlePtr < |row.data|
      modifies `lastMask, `nMask, `bitToCheck
      ensures Valid() && bitToCheck < 64
      ensures bitToCheck !in lastMask <==> ChangesAt(pixels, steps)
    {
      MoreChanges(row, pixels, steps);
      if bitToCheck == 64 {
        if nMask < MASK_UNITS {
          lastMask := row.masks[nMask];
          nMask := nMask + 1;
        } else {
          lastMask := LowBits(64);
        }
        bitToCheck := 0;
      }
    }

    method Next()
      requires Valid()
      modifies this
      ensures Valid() && steps == old(steps) + 1
    {
      if rlePtr == |row.data| {
        AllChangesSeen(row, pixels, steps);
        steps := steps + 1;
        return;
      }
      hide Shown, Encodes, Passed, ChangesAt;
      LoadMask();
      MoreChanges(row, pixels, steps);
      NextShown(pixels, steps);
      if bitToCheck !in lastMask {
        lastPix := row.data[rlePtr];
        rlePtr := rlePtr + 1;
      }
      bitToCheck := bitToCheck + 1;
      steps := steps + 1;
    }
  }

  /** What the next step shows, and how many changes it has passed. */
  lemma NextShown(p: PixelRow, steps: nat)
    ensures if ChangesAt(p, steps) then Shown(p, steps + 1) == p[steps] && Passed(p, steps + 1) == Passed(p, steps) + 1
            else Shown(p, steps + 1) == Shown(p, steps) && Passed(p, steps + 1) == Passed(p, steps)
  {
  }

  lemma AllChangesSeen(row: Row, p: PixelRow, steps: nat)
    requires Encodes(row, p) && Passed(p, steps) == |row.data|
    ensures Shown(p, steps) == Shown(p, steps + 1) && Passed(p, steps + 1) == |row.data|
  {
    var n := Min(|p|, MASKED);
    ChangesGrow(p, Min(steps, n), Min(steps + 1, n));
    ChangesGrow(p, Min(steps + 1, n), n);
    NoMoreChanges(p, Min(steps, n), Min(steps + 1, n));
  }

  lemma MoreChanges(row: Row, p: PixelRow, steps: nat)
    requires Encodes(row, p) && Passed(p, steps) < |row.data|
    ensures steps < |p| || |p| > MASKED
    ensures ChangesAt(p, steps) ==> row.data[Passed(p, steps)] == p[steps] && Passed(p, steps) < |row.data|
  {
    var n := Min(|p|, MASKED);
    if steps < n {
      ChangesGrow(p, steps + 1, n);
    }
  }

  /** Pixels past the masked ones all repeat pixel 255. */
  ghost predicate TailRepeats(p: PixelRow) {
    forall k :: MASKED <= k < |p| ==> p[k] == p[MASKED - 1]
  }

  lemma ShownExactlyWhen(p: PixelRow, r: PixelRow)
    requires |r| == |p| && forall k :: 0 <= k < |p| ==> r[k] == Shown(p, k + 1)
    ensures r == p <==> TailRepeats(p)
  {
    if r == p {
      forall k | MASKED <= k < |p| ensures p[k] == p[MASKED - 1] {
        assert r[k] == Shown(p, k + 1);
      }
    }
  }

  /** A row of 257 pixels, the last one of another colour, is not given back. */
  lemma LongRowBreaks(r: PixelRow)
    requires var p := LongRow(); |r| == |p| && forall k :: 0 <= k < |p| ==> r[k] == Shown(p, k + 1)
    ensures r != LongRow() && r[MASKED] == TRANSPARENT
  {
    var p := LongRow();
    ShownExactlyWhen(p, r);
    assert p[MASKED] != p[MASKED - 1];
    assert r[MASKED] == Shown(p, MASKED + 1);
  }

  ghost function LongRow(): PixelRow {
    seq(MASKED, _ => TRANSPARENT) + [Pixel(1, 1, 1, 1)]
  }

  /**
   * Running the iterator along a whole row gives the row back exactly when its pixels past the
   * 256th repeat that one; in particular for every row of at most 256 pixels, also in part.
   */
  method Replay(row: Row, ghost pixels: PixelRow, count: nat) returns (r: PixelRow)
    requires Encodes(row, pixels)
    ensures |r| == count
    ensures count == |pixels| ==> (r == pixels <==> TailRepeats(pixels))
    ensures |pixels| <= MASKED && count <= |pixels| ==> r == pixels[..count]
    ensures forall k :: 0 <= k < count ==> r[k] == Shown(pixels, k + 1)
  {
    var it := new PixIterator(row, pixels);
    r := [];
    while |r| < count
      invariant it.Valid() && fresh(it) && it.pixels == pixels && it.steps == |r| + 1 <= count + 1
      invariant forall k :: 0 <= k < |r| ==> r[k] == Shown(pixels, k + 1)
    {
      r := r + [it.lastPix];
      it.Next();
    }
    if count == |pixels| {
      ShownExactlyWhen(pixels, r);
    }
  }
}
