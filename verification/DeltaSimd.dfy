/** The 8 lane row encoder (kit/DeltaSimd.c), lanes being sequences of 8 pixels. */
module DeltaSimd {
  import opened Arith
  import opened Pixels
  import opened DeltaRow

  const LANES := 8
  const SIMD_WIDTH := 256

  /** Bit k of a number. */
  predicate BitSet(n: nat, k: nat) {
    if k == 0 then n % 2 == 1 else BitSet(n / 2, k - 1)
  }

  /** Collects one bit per lane into a number. */
  function MoveMask(lanes: seq<bool>): nat {
    if lanes == [] then 0 else (if lanes[0] then 1 else 0) + 2 * MoveMask(lanes[1..])
  }

  lemma {:induction false} MoveMaskBits(lanes: seq<bool>, k: nat)
    requires k < |lanes|
    ensures BitSet(MoveMask(lanes), k) == lanes[k]
  {
    var rest := MoveMask(lanes[1..]);
    assert MoveMask(lanes) == (if lanes[0] then 1 else 0) + 2 * rest;
    assert MoveMask(lanes) / 2 == rest;
    if k > 0 {
      hide MoveMask;
      MoveMaskBits(lanes[1..], k - 1);
    }
  }

  function Pow2(n: nat): nat { if n == 0 then 1 else 2 * Pow2(n - 1) }

  lemma {:induction false} MoveMaskBound(lanes: seq<bool>)
    ensures MoveMask(lanes) < Pow2(|lanes|)
  {
    if lanes != [] {
      MoveMaskBound(lanes[1..]);
    }
  }

  /** Lanes below n whose bit is clear: the pixels that a pattern keeps. */
  ghost function Kept(pattern: nat, n: nat): (r: seq<nat>)
    ensures |r| == CountClear(pattern, n) <= n
    ensures forall i :: 0 <= i < |r| ==> r[i] < n
  {
    if n == 0 then [] else Kept(pattern, n - 1) + if BitSet(pattern, n - 1) then [] else [n - 1]
  }

  /** The population count of the pattern's complement. */
  function CountClear(pattern: nat, n: nat): nat {
    if n == 0 then 0 else CountClear(pattern, n - 1) + if BitSet(pattern, n - 1) then 0 else 1
  }

  ghost predicate IsControl(control: seq<nat>, pattern: nat) {
    |control| == LANES && Kept(pattern, LANES) <= control && forall i :: 0 <= i < LANES ==> control[i] < LANES
  }

  /** Builds the table that turns a bit pattern into the permutation packing its clear lanes. */
  method InitGatherLut() returns (table: seq<seq<nat>>)
    ensures |table| == 256
    ensures forall pattern :: 0 <= pattern < 256 ==> IsControl(table[pattern], pattern)
  {
    table := [];
    for pattern := 0 to 256
      invariant |table| == pattern
      invariant forall p :: 0 <= p < pattern ==> IsControl(table[p], p)
    {
      var lut: seq<nat> := [];
      for src := 0 to LANES
        invariant lut == Kept(pattern, src)
      {
        if !BitSet(pattern, src) {
          lut := lut + [src];
        }
      }
      while |lut| < LANES
        invariant Kept(pattern, LANES) <= lut && |lut| <= LANES
        invariant forall i :: 0 <= i < |lut| ==> lut[i] < LANES
      {
        lut := lut + [0];
      }
      table := table + [lut];
    }
  }

  function Permute(v: PixelRow, control: seq<nat>): (r: PixelRow)
    requires |v| == |control| == LANES && forall i :: 0 <= i < LANES ==> control[i] < LANES
    ensures |r| == LANES
  {
    seq(LANES, i requires 0 <= i < LANES => v[control[i]])
  }

  /** Lanes shifted up by one with the last pixel of the block before merged in at the bottom. */
  function ShiftIn(prev: PixelRow, curr: PixelRow): (r: PixelRow)
    requires |prev| == |curr| == LANES
    ensures |r| == LANES
  {
    var lastPix := Permute(prev, [7, 0, 0, 0, 0, 0, 0, 0]);
    var shifted := Permute(curr, [0, 0, 1, 2, 3, 4, 5, 6]);
    // and, andnot and or with the low pixel mask
    [lastPix[0]] + shifted[1..]
  }

  function DiffMask(prev: PixelRow, curr: PixelRow): nat
    requires |prev| == |curr| == LANES
  {
    MoveMask(seq(LANES, i requires 0 <= i < LANES => prev[i] == curr[i]))
  }

  /** The bits of an 8 bit mask moved up into a mask word. */
  function ShiftedBits(mask: nat, offset: nat): set<nat> {
    set b | 0 <= b < LANES && BitSet(mask, b) :: offset + b
  }

  lemma DiffMaskRepeats(p: PixelRow, x: nat, prev: PixelRow, curr: PixelRow)
    requires x + LANES <= |p| && curr == p[x .. x + LANES] && |prev| == LANES && prev[7] == Before(p, x)
    ensures DiffMask(ShiftIn(prev, curr), curr) < 256
    ensures forall b :: 0 <= b < LANES ==> (BitSet(DiffMask(ShiftIn(prev, curr), curr), b) <==> Repeats(p, x + b))
  {
    var left := ShiftIn(prev, curr);
    var lanes := seq(LANES, i requires 0 <= i < LANES => left[i] == curr[i]);
    MoveMaskBound(lanes);
    assert Pow2(8) == 256;
    forall b | 0 <= b < LANES ensures BitSet(MoveMask(lanes), b) <==> Repeats(p, x + b) {
      MoveMaskBits(lanes, b);
      assert left[b] == if b == 0 then prev[7] else curr[b - 1];
    }
  }

  lemma {:induction false} PackedChanges(p: PixelRow, x: nat, mask: nat, n: nat)
    requires x + LANES <= |p| && n <= LANES
    requires forall b :: 0 <= b < LANES ==> (BitSet(mask, b) <==> Repeats(p, x + b))
    ensures Changes(p, x + n) == Changes(p, x) + seq(|Kept(mask, n)|, i requires 0 <= i < |Kept(mask, n)| => p[x + Kept(mask, n)[i]])
  {
    if n > 0 {
      PackedChanges(p, x, mask, n - 1);
    }
  }

  /** An over-wide store: all eight lanes are written, whatever their number of useful pixels. */
  method Store(scratch: array<Pixel>, dest: nat, packed: PixelRow)
    requires dest + LANES <= scratch.Length && |packed| == LANES
    modifies scratch
    ensures scratch[dest .. dest + LANES] == packed
    ensures scratch[..dest] == old(scratch[..dest])
  {
    for i := 0 to LANES
      invariant scratch[dest .. dest + i] == packed[..i]
      invariant scratch[..dest] == old(scratch[..dest])
    {
      scratch[dest + i] := packed[i];
    }
  }

  /** Packs the changed pixels of the block at x behind the dest pixels already stored. */
  method PackBlock(from: PixelRow, x: nat, scratch: array<Pixel>, dest: nat, newMask: nat, control: seq<nat>)
    returns (next: nat)
    requires x + LANES <= |from| <= scratch.Length && IsControl(control, newMask)
    requires dest == |Changes(from, x)| <= x && scratch[..dest] == Changes(from, x)
    requires forall b :: 0 <= b < LANES ==> (BitSet(newMask, b) <==> Repeats(from, x + b))
    modifies scratch
    ensures next == |Changes(from, x + LANES)| <= x + LANES && scratch[..next] == Changes(from, x + LANES)
  {
    hide Changes, BitSet;
    var packed := Permute(from[x .. x + LANES], control);
    var countBitsUnset := CountClear(newMask, LANES);
    Store(scratch, dest, packed);
    PackedChanges(from, x, newMask, LANES);
    next := dest + countBitsUnset;
    assert scratch[..next] == scratch[..dest] + scratch[dest .. dest + LANES][..countBitsUnset];
    assert packed[..countBitsUnset] == Changes(from, x + LANES)[dest..];
  }

  lemma MaskAgreesBlock(masks: seq<set<nat>>, p: PixelRow, x: nat, mask: nat)
    requires x % LANES == 0 && x + LANES <= Min(|p|, MASKED) && MaskAgrees(masks, p, x)
    requires forall b :: 0 <= b < LANES ==> (BitSet(mask, b) <==> Repeats(p, x + b))
    ensures MaskAgrees(masks[x / 64 := masks[x / 64] + ShiftedBits(mask, x % 64)], p, x + LANES)
  {
    var after := masks[x / 64 := masks[x / 64] + ShiftedBits(mask, x % 64)];
    forall m, b: nat | 0 <= m < MASK_UNITS
      ensures b in after[m] <==> b < 64 && 64 * m + b < x + LANES && Repeats(p, 64 * m + b)
    {
      assert b in masks[m] <==> b < 64 && 64 * m + b < x && Repeats(p, 64 * m + b);
      if b < 64 && x <= 64 * m + b < x + LANES {
        assert m == x / 64 && b - x % 64 == 64 * m + b - x;
        assert BitSet(mask, b - x % 64) <==> Repeats(p, 64 * m + b);
      }
    }
  }

  method InitPixRowSimd(from: PixelRow, scratch: array<Pixel>, lut: seq<seq<nat>>)
    returns (scratchLen: nat, rleMaskBlock: seq<set<nat>>)
    requires |from| == SIMD_WIDTH && scratch.Length == SIMD_WIDTH
    requires |lut| == 256 && forall pattern :: 0 <= pattern < 256 ==> IsControl(lut[pattern], pattern)
    modifies scratch
    ensures scratchLen <= SIMD_WIDTH
    ensures Encodes(Row(rleMaskBlock, scratch[..scratchLen]), from)
  {
    hide MaskAgrees, Changes, DiffMask, ShiftIn, Encodes, IsControl, ShiftedBits, BitSet, Repeats;
    rleMaskBlock := [{}, {}, {}, {}];
    NothingEncoded(from);
    var dest := 0;
    var prev := seq(LANES, _ => TRANSPARENT);
    var x := 0;
    while x < SIMD_WIDTH
      invariant x % LANES == 0 && x <= SIMD_WIDTH
      invariant dest == |Changes(from, x)| <= x && scratch[..dest] == Changes(from, x)
      invariant |prev| == LANES && prev[7] == Before(from, x)
      invariant |rleMaskBlock| == MASK_UNITS && MaskAgrees(rleMaskBlock, from, x)
    {
      var curr := from[x .. x + LANES];
      var newMask := DiffMask(ShiftIn(prev, curr), curr);
      DiffMaskRepeats(from, x, prev, curr);
      MaskAgreesBlock(rleMaskBlock, from, x, newMask);
      rleMaskBlock := rleMaskBlock[x / 64 := rleMaskBlock[x / 64] + ShiftedBits(newMask, x % 64)];
      dest := PackBlock(from, x, scratch, dest, newMask, lut[newMask]);
      prev := curr;
      x := x + LANES;
    }
    scratchLen := dest;
    AllEncoded(rleMaskBlock, from);
  }

  lemma NothingEncoded(p: PixelRow)
    ensures MaskAgrees([{}, {}, {}, {}], p, 0) && Changes(p, 0) == []
  {
  }

  lemma AllEncoded(masks: seq<set<nat>>, p: PixelRow)
    requires |p| == SIMD_WIDTH && MaskAgrees(masks, p, SIMD_WIDTH)
    ensures Encodes(Row(masks, Changes(p, SIMD_WIDTH)), p)
  {
    hide Changes;
  }

  /** Encodes a row with the fast encoder where it applies. */
  method InitRow(from: PixelRow, hasAvx2: bool) returns (row: Row)
    ensures Encodes(row, from)
  {
    var scratch := new Pixel[|from|](_ => TRANSPARENT);
    var size, masks;
    if hasAvx2 && |from| == SIMD_WIDTH {
      var lut := InitGatherLut();
      size, masks := InitPixRowSimd(from, scratch, lut);
    } else {
      size, masks := InitPixRowCpu(from, scratch);
    }
    row := Row(masks, scratch[..size]);
  }

  /** The fast and the scalar encoder agree in masks, length and packed pixels on every 256 pixel row. */
  method SimdValidation(from: PixelRow) returns (simd: Row, cpu: Row)
    requires |from| == SIMD_WIDTH
    ensures simd == cpu && Encodes(cpu, from)
  {
    simd := InitRow(from, true);
    cpu := InitRow(from, false);
    EncodingUnique(simd, cpu, from);
  }
}
