/**
 * Streaming SpookyHash (common/SpookyV2.cpp, common/SpookyV2.h). What is proved is the
 * bookkeeping of blocks; it holds whatever the mixing functions compute, so they are parameters.
 */
module SpookyStream {
  import opened Arith
  import opened Pixels

  type Word = nat

  const NUM_VARS := 12
  const BLOCK := 96
  const BUF := 192
  const SC_CONST: Word := 0xdeadbeefdeadbeef

  type Vars = s: seq<Word> | |s| == NUM_VARS witness seq(NUM_VARS, _ => 0)

  /** Mix, End and Short. */
  datatype Mixer = Mixer(
    mix: (Vars, seq<Byte>) -> Vars, end: (Vars, seq<Byte>) -> Vars, short: (seq<Byte>, Word, Word) -> (Word, Word))

  function Start(seed1: Word, seed2: Word): Vars {
    [seed1, seed2, SC_CONST, seed1, seed2, SC_CONST, seed1, seed2, SC_CONST, seed1, seed2, SC_CONST]
  }

  /** Mixes whole blocks in order. */
  function MixAll(m: Mixer, h: Vars, bytes: seq<Byte>): Vars
    requires |bytes| % BLOCK == 0
    decreases |bytes|
  {
    if bytes == [] then h else MixAll(m, m.mix(h, bytes[..BLOCK]), bytes[BLOCK..])
  }

  /** The last partial block: zero filled, its length in the last byte. */
  function LastBlock(rest: seq<Byte>): seq<Byte>
    requires |rest| < BLOCK
  {
    rest + seq(BLOCK - 1 - |rest|, _ => 0) + [|rest|]
  }

  /** The hash of a whole message. */
  function Hash(m: Mixer, msg: seq<Byte>, seed1: Word, seed2: Word): (Word, Word) {
    if |msg| < BUF then m.short(msg, seed1, seed2)
    else
      var n := |msg| / BLOCK * BLOCK;
      var h := m.end(MixAll(m, Start(seed1, seed2), msg[..n]), LastBlock(msg[n..]));
      (h[0], h[1])
  }

  /**
   * What the hash of a long message is, step by step: twelve words start from the seeds and a
   * constant in turn, every block of 96 bytes is mixed in, and the rest, filled with zeros and
   * ended by its length, ends it.
   */
  lemma HashSteps(m: Mixer, msg: seq<Byte>, seed1: Word, seed2: Word) returns (hs: seq<Vars>, last: seq<Byte>)
    requires |msg| >= 192
    ensures var k := |msg| / 96;
      && |hs| == k + 1 && |last| == 96
      && (forall i :: 0 <= i < 12 ==> hs[0][i] == if i % 3 == 0 then seed1 else if i % 3 == 1 then seed2 else 0xdeadbeefdeadbeef)
      && (forall j :: 0 <= j < k ==> MixedIn(m, hs[j], hs[j + 1], msg, j))
      && (forall i :: 0 <= i < 96 ==> last[i] == if i < |msg| % 96 then msg[k * 96 + i] else if i < 95 then 0 else |msg| % 96)
      && Hash(m, msg, seed1, seed2) == (m.end(hs[k], last)[0], m.end(hs[k], last)[1])
  {
    var k := |msg| / 96;
    var front := msg[..k * 96];
    hs := BlockSteps(m, Start(seed1, seed2), front, k);
    forall j | 0 <= j < k ensures MixedIn(m, hs[j], hs[j + 1], msg, j) {
      assert MixedIn(m, hs[j], hs[j + 1], front, j);
      assert front[j * 96 .. j * 96 + 96] == msg[j * 96 .. j * 96 + 96];
    }
    last := LastBlock(msg[k * 96..]);
    hide MixAll;
  }

  ghost predicate MixedIn(m: Mixer, h: Vars, next: Vars, bytes: seq<Byte>, j: nat) {
    j * 96 + 96 <= |bytes| && next == m.mix(h, bytes[j * 96 .. j * 96 + 96])
  }

  lemma {:induction false} BlockSteps(m: Mixer, h: Vars, bytes: seq<Byte>, k: nat) returns (hs: seq<Vars>)
    requires |bytes| == k * 96
    ensures |hs| == k + 1 && hs[0] == h && hs[k] == MixAll(m, h, bytes)
    ensures forall j :: 0 <= j < k ==> MixedIn(m, hs[j], hs[j + 1], bytes, j)
    decreases k
  {
    if k == 0 {
      hs := [h];
    } else {
      var rest := bytes[96..];
      var more := BlockSteps(m, m.mix(h, bytes[..96]), rest, k - 1);
      hs := [h] + more;
      forall j | 0 <= j < k ensures MixedIn(m, hs[j], hs[j + 1], bytes, j) {
        if j > 0 {
          assert MixedIn(m, more[j - 1], more[j], rest, j - 1);
          assert rest[(j - 1) * 96 .. (j - 1) * 96 + 96] == bytes[j * 96 .. j * 96 + 96];
        }
      }
    }
  }

  lemma {:induction false} MixConcat(m: Mixer, h: Vars, a: seq<Byte>, b: seq<Byte>)
    requires |a| % BLOCK == 0 && |b| % BLOCK == 0
    ensures MixAll(m, h, a + b) == MixAll(m, MixAll(m, h, a), b)
    decreases |a|
  {
    if a == [] {
      assert a + b == b;
    } else {
      assert (a + b)[..BLOCK] == a[..BLOCK] && (a + b)[BLOCK..] == a[BLOCK..] + b;
      MixConcat(m, m.mix(h, a[..BLOCK]), a[BLOCK..], b);
    }
  }

  lemma MixOne(m: Mixer, h: Vars, block: seq<Byte>)
    requires |block| == BLOCK
    ensures MixAll(m, h, block) == m.mix(h, block)
  {
    assert block[..BLOCK] == block && block[BLOCK..] == [];
  }

  /** Mixes the whole blocks at the front of the data; the loop of Hash128 and of Update. */
  method MixBlocks(m: Mixer, h0: Vars, bytes: seq<Byte>) returns (h: Vars, used: nat)
    ensures used == |bytes| / BLOCK * BLOCK && h == MixAll(m, h0, bytes[..used])
  {
    h := h0;
    var end := |bytes| / BLOCK * BLOCK;
    used := 0;
    while used < end
      invariant used <= end && used % BLOCK == 0 && h == MixAll(m, h0, bytes[..used])
    {
      var block := bytes[used .. used + BLOCK];
      MixConcat(m, h0, bytes[..used], block);
      MixOne(m, h, block);
      assert bytes[..used] + block == bytes[..used + BLOCK];
      h := m.mix(h, block);
      used := used + BLOCK;
    }
  }

  method Hash128(m: Mixer, message: seq<Byte>, seed1: Word, seed2: Word) returns (hash1: Word, hash2: Word)
    ensures (hash1, hash2) == Hash(m, message, seed1, seed2)
  {
    if |message| < BUF {
      var short := m.short(message, seed1, seed2);
      return short.0, short.1;
    }
    var h, used := MixBlocks(m, Start(seed1, seed2), message);
    h := m.end(h, LastBlock(message[used..]));
    return h[0], h[1];
  }

  method CopyIn(data: array<Byte>, at: nat, bytes: seq<Byte>)
    requires at + |bytes| <= data.Length
    modifies data
    ensures data[..at] == old(data[..at]) && data[at .. at + |bytes|] == bytes
    ensures data[at + |bytes|..] == old(data[at + |bytes|..])
  {
    for i := 0 to |bytes|
      invariant data[..at] == old(data[..at]) && data[at .. at + i] == bytes[..i]
      invariant data[at + |bytes|..] == old(data[at + |bytes|..])
    {
      data[at + i] := bytes[i];
    }
  }

  class SpookyHash {
    const m: Mixer
    const data: array<Byte>     // the stash: two blocks of bytes waiting to be mixed
    var state: Vars
    var length: nat             // bytes given, mixed or not
    var remainder: nat          // how many bytes of the stash are waiting
    ghost var mixed: seq<Byte>  // the input that has gone into the state
    ghost var seed1: Word
    ghost var seed2: Word

    /** The input so far. */
    ghost function Input(): seq<Byte>
      reads this, data
      requires remainder <= data.Length
    {
      mixed + data[..remainder]
    }

    ghost predicate Valid()
      reads this, data
    {
      && data.Length == BUF && remainder < BUF && |mixed| % BLOCK == 0 && length == |mixed| + remainder
      && if length < BUF then mixed == [] && state[0] == seed1 && state[1] == seed2
         else state == MixAll(m, Start(seed1, seed2), mixed)
    }

    constructor (m: Mixer, seed1: Word, seed2: Word)
      ensures Valid() && fresh(data) && this.m == m && Input() == [] && this.seed1 == seed1 && this.seed2 == seed2
    {
      this.m := m;
      data := new Byte[BUF](_ => 0);
      state := [seed1, seed2, 0, 0, 0, 0, 0, 0, 0, 0, 0, 0];
      length, remainder, mixed := 0, 0, [];
      this.seed1, this.seed2 := seed1, seed2;
    }

    /** Adds a piece of the message. */
    method Update(message: seq<Byte>)
      requires Valid()
      modifies this, data
      ensures Valid() && Input() == old(Input()) + message && seed1 == old(seed1) && seed2 == old(seed2)
    {
      var newLength := |message| + remainder;
      if newLength < BUF {
        CopyIn(data, remainder, message);
        assert data[..newLength] == data[..remainder] + data[remainder .. newLength];
        length, remainder := |message| + length, newLength;
      } else {
        UpdateLong(message);
      }
    }

    /** The stash and the message together fill the buffer: everything but a partial block is mixed in. */
    method UpdateLong(message: seq<Byte>)
      requires Valid() && |message| + remainder >= BUF
      modifies this, data
      ensures Valid() && Input() == old(Input()) + message && seed1 == old(seed1) && seed2 == old(seed2)
    {
      hide MixAll;
      ghost var start := Start(seed1, seed2);
      var h := if length < BUF then Start(state[0], state[1]) else state;
      assert h == MixAll(m, start, mixed) by { MixNone(m, start); }
      length := |message| + length;
      var rest := message;
      if remainder != 0 {
        var prefix := BUF - remainder;
        CopyIn(data, remainder, message[..prefix]);
        assert data[..] == data[..remainder] + data[remainder..];
        h := MixTwo(m, h, data[..], mixed, start);
        mixed := mixed + data[..];
        rest := message[prefix..];
        remainder := 0;
        assert message == message[..prefix] + rest;
      }
      assert mixed + rest == old(Input()) + message;
      FinishUpdate(rest, h);
    }

    /** Mixes the whole blocks of what is left of the message and stashes the last few bytes. */
    method FinishUpdate(rest: seq<Byte>, h: Vars)
      requires data.Length == BUF && remainder == 0 && |mixed| % BLOCK == 0 && length == |mixed| + |rest| >= BUF
      requires h == MixAll(m, Start(seed1, seed2), mixed)
      modifies this, data
      ensures Valid() && Input() == old(mixed) + rest && seed1 == old(seed1) && seed2 == old(seed2)
    {
      hide MixAll;
      var h', used := MixBlocks(m, h, rest);
      MixConcat(m, Start(seed1, seed2), mixed, rest[..used]);
      mixed := mixed + rest[..used];
      remainder, state := |rest| - used, h';
      CopyIn(data, 0, rest[used..]);
      Rejoin(old(mixed), rest, used, data[0 .. remainder], data[..remainder]);
    }

    /** The hash of the input so far; the state stays usable for more input. */
    method Final() returns (hash1: Word, hash2: Word)
      requires Valid()
      modifies data
      ensures Valid() && Input() == old(Input()) && (hash1, hash2) == Hash(m, Input(), seed1, seed2)
    {
      hide MixAll;
      if length < BUF {
        assert data[..length] == Input();
        var short := m.short(data[..length], state[0], state[1]);
        return short.0, short.1;
      }
      ghost var all := Input();
      var h, at, rem := state, 0, remainder;
      ghost var front, rest := mixed, data[..remainder];
      if rem >= BLOCK {
        var block := data[..BLOCK];
        MixMore(m, Start(seed1, seed2), mixed, block);
        h := m.mix(h, block);
        front, rest := front + block, rest[BLOCK..];
        at, rem := BLOCK, rem - BLOCK;
      }
      assert all == front + rest;
      PadLast(at, rem);
      h := m.end(h, data[at .. at + BLOCK]);
      HashSplit(m, front, rest, seed1, seed2);
      return h[0], h[1];
    }

    /** Zero fills the last partial block in the stash and notes its length, leaving the stashed bytes. */
    method PadLast(at: nat, rem: nat)
      requires data.Length == BUF && at + rem == remainder && at + BLOCK <= BUF && rem < BLOCK
      modifies data
      ensures data[..remainder] == old(data[..remainder])
      ensures data[at .. at + BLOCK] == LastBlock(old(data[..remainder])[at..])
    {
      var tail: seq<Byte> := seq(BLOCK - 1 - rem, _ => 0) + [rem];
      CopyIn(data, at + rem, tail);
      ghost var rest := data[..remainder][at..];
      assert data[at .. at + BLOCK] == rest + data[at + rem .. at + BLOCK];
      assert rest + tail == LastBlock(rest);
    }
  }

  lemma MixMore(m: Mixer, start: Vars, mixed: seq<Byte>, block: seq<Byte>)
    requires |mixed| % BLOCK == 0 && |block| == BLOCK
    ensures MixAll(m, start, mixed + block) == m.mix(MixAll(m, start, mixed), block)
  {
    MixConcat(m, start, mixed, block);
    MixOne(m, MixAll(m, start, mixed), block);
  }

  lemma Rejoin(mixed: seq<Byte>, rest: seq<Byte>, used: nat, tail: seq<Byte>, stash: seq<Byte>)
    requires used <= |rest| && tail == rest[used..] && stash == tail
    ensures mixed + rest[..used] + stash == mixed + rest
  {
    assert rest == rest[..used] + rest[used..];
  }

  lemma MixNone(m: Mixer, h: Vars)
    ensures MixAll(m, h, []) == h
  {
  }

  lemma HashSplit(m: Mixer, front: seq<Byte>, rest: seq<Byte>, seed1: Word, seed2: Word)
    requires |front| % BLOCK == 0 && |rest| < BLOCK && |front| + |rest| >= BUF
    ensures var h := m.end(MixAll(m, Start(seed1, seed2), front), LastBlock(rest)); Hash(m, front + rest, seed1, seed2) == (h[0], h[1])
  {
    var n := |front + rest| / BLOCK * BLOCK;
    assert n == |front|;
    assert (front + rest)[..n] == front && (front + rest)[n..] == rest;
  }

  /** Both blocks of a full buffer. */
  method MixTwo(m: Mixer, h0: Vars, buf: seq<Byte>, ghost mixed: seq<Byte>, ghost start: Vars) returns (h: Vars)
    requires |buf| == BUF && |mixed| % BLOCK == 0 && h0 == MixAll(m, start, mixed)
    ensures h == MixAll(m, start, mixed + buf)
  {
    h := m.mix(h0, buf[..BLOCK]);
    h := m.mix(h, buf[BLOCK..]);
    MixConcat(m, start, mixed, buf);
    MixOne(m, m.mix(h0, buf[..BLOCK]), buf[BLOCK..]);
  }

  /** Any way of splitting a message into updates gives the hash of the whole; and so does asking again later. */
  method HashPieces(m: Mixer, pieces: seq<seq<Byte>>, seed1: Word, seed2: Word) returns (hash1: Word, hash2: Word)
    ensures (hash1, hash2) == Hash(m, Concat(pieces), seed1, seed2)
  {
    var hash := new SpookyHash(m, seed1, seed2);
    for i := 0 to |pieces|
      invariant hash.Valid() && fresh(hash) && fresh(hash.data) && hash.m == m && hash.seed1 == seed1 && hash.seed2 == seed2
      invariant hash.Input() == Concat(pieces[..i])
    {
      var _, _ := hash.Final();
      hash.Update(pieces[i]);
      assert pieces[..i + 1][..i] == pieces[..i];
    }
    assert pieces[..|pieces|] == pieces;
    hash1, hash2 := hash.Final();
  }

  /** The bytes of a row of a pixmap from column x on, four to a pixel. */
  function SubRow(pixmap: seq<Byte>, bufferWidth: nat, bufferHeight: nat, x: nat, y: nat, width: nat): seq<Byte>
    requires |pixmap| == 4 * (bufferHeight * bufferWidth) && x + width <= bufferWidth && y < bufferHeight
  {
    RowInside(bufferWidth, bufferHeight, x, y, width);
    var position := y * bufferWidth * 4 + x * 4;
    pixmap[position .. position + width * 4]
  }

  /** The rows of a rectangle of a pixmap. */
  function SubRows(pixmap: seq<Byte>, bufferWidth: nat, bufferHeight: nat, x: nat, y: nat, width: nat, height: nat): (rows: seq<seq<Byte>>)
    requires |pixmap| == 4 * (bufferHeight * bufferWidth) && x + width <= bufferWidth && y + height <= bufferHeight
    ensures |rows| == height
  {
    seq(height, i requires 0 <= i < height => SubRow(pixmap, bufferWidth, bufferHeight, x, y + i, width))
  }

  /** Byte c of pixel i of a row is that of the pixmap, as far from where the rectangle starts. */
  lemma SubRowAt(pixmap: seq<Byte>, bufferWidth: nat, bufferHeight: nat, x: nat, y: nat, width: nat, height: nat, row: nat, i: nat, c: nat)
    requires |pixmap| == 4 * (bufferHeight * bufferWidth) && x + width <= bufferWidth && y + height <= bufferHeight
    requires row < height && i < width && c < 4
    ensures var rows := SubRows(pixmap, bufferWidth, bufferHeight, x, y, width, height);
      var at := 4 * ((y + row) * bufferWidth + (x + i)) + c;
      |rows[row]| == 4 * width && at < |pixmap| && rows[row][4 * i + c] == pixmap[at]
  {
    RowInside(bufferWidth, bufferHeight, x, y + row, width);
    var base := (y + row) * bufferWidth;
    var rows := SubRows(pixmap, bufferWidth, bufferHeight, x, y, width, height);
    assert rows[row] == SubRow(pixmap, bufferWidth, bufferHeight, x, y + row, width);
    assert (y + row) * bufferWidth * 4 + x * 4 == 4 * base + 4 * x;
    assert rows[row] == pixmap[4 * base + 4 * x .. 4 * base + 4 * x + width * 4];
  }

  /** Depends on the bytes of the selected rows alone, not on where they lie; 0 where the buffer is too small. */
  method HashSubBuffer(m: Mixer, pixmap: seq<Byte>, startX: nat, startY: nat, width: nat, height: nat,
                       bufferWidth: nat, bufferHeight: nat)
    returns (hash: Word)
    requires bufferWidth >= width && bufferHeight >= height ==>
      |pixmap| == 4 * (bufferHeight * bufferWidth) && startX + width <= bufferWidth && startY + height <= bufferHeight
    ensures bufferWidth < width || bufferHeight < height ==> hash == 0
    ensures bufferWidth >= width && bufferHeight >= height ==>
      hash == Hash(m, Concat(SubRows(pixmap, bufferWidth, bufferHeight, startX, startY, width, height)), 1073741789, 1073741789).0
  {
    hide SubRow;
    if bufferWidth < width || bufferHeight < height {
      return 0;
    }
    var spooky := new SpookyHash(m, 1073741789, 1073741789);
    ghost var rows := SubRows(pixmap, bufferWidth, bufferHeight, startX, startY, width, height);
    for y := 0 to height
      invariant spooky.Valid() && fresh(spooky) && fresh(spooky.data) && spooky.m == m
      invariant spooky.seed1 == spooky.seed2 == 1073741789 && spooky.Input() == Concat(rows[..y])
    {
      spooky.Update(SubRow(pixmap, bufferWidth, bufferHeight, startX, startY + y, width));
      assert rows[..y + 1][..y] == rows[..y];
    }
    assert rows[..height] == rows;
    var hash1, hash2 := spooky.Final();
    hash := hash1;
  }
}
