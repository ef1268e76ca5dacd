/** The messages of the queue (common/MessageQueue.cpp), parsed, and sequences with indices dropped. */
module Messages {

  type Pos = n: nat | n > 0 witness 1

  /** A tile request; id is negative unless it is a preview. */
  datatype TileDesc = TileDesc(
    nviewid: nat, part: nat, mode: nat, width: Pos, height: Pos, posX: nat, posY: nat,
    tileWidth: Pos, tileHeight: Pos, ver: int, oldwid: nat, wid: nat, id: int)

  /** The payload of an invalidation: a rectangle, everything ("EMPTY"), or text that does not parse. */
  datatype Area = Rect(x: int, y: int, w: int, h: int, part: int, mode: int) | Empty(part: int, mode: int) | NoArea(text: string)

  /** Callbacks by what queuing them does. A uno command of "" stands for a payload without one. */
  datatype Payload =
    | Invalidate(area: Area)
    | StateChanged(command: string, value: string)
    | CursorClass(kind: nat, text: string)
    | ViewCursor(kind: nat, viewId: string, text: string)
    | OtherCallback(kind: nat, text: string)

  /** What a client sends. The malformed forms lack an id or another argument. */
  datatype Command =
    | TextInput(id: string, text: string)
    | RemoveText(id: string, before: int, after: int)
    | BadTextInput(args: string)
    | BadRemoveText(args: string)
    | Key(args: string)
    | Mouse(args: string)
    | WindowKey(args: string)
    | OtherCommand(name: string)

  datatype Msg =
    | TileMsg(desc: TileDesc)
    | TileCombine(tiles: seq<TileDesc>)
    | Callback(view: string, payload: Payload)
    | Client(client: string, command: Command)
    | OneToken(text: string)

  predicate IsPreview(m: Msg) { m.TileMsg? && m.desc.id >= 0 }

  predicate IsPlainTile(m: Msg) { m.TileMsg? && m.desc.id < 0 }

  function Below(n: nat): (s: set<nat>)
    ensures forall i: nat :: i in s <==> i < n
  {
    if n == 0 then {} else Below(n - 1) + {n - 1}
  }

  /** The sequence without the elements at some indices. */
  function Without<T>(q: seq<T>, drop: set<nat>): (r: seq<T>)
    ensures |r| <= |q|
  {
    if q == [] then []
    else Without(q[..|q| - 1], drop) + if |q| - 1 in drop then [] else [q[|q| - 1]]
  }

  /** Where the element at index k is once the indices are dropped. */
  function NewIndex(drop: set<nat>, k: nat): (n: nat)
    ensures n <= k
  {
    if k == 0 then 0 else NewIndex(drop, k - 1) + if k - 1 in drop then 0 else 1
  }

  lemma {:induction false} WithoutLength<T>(q: seq<T>, drop: set<nat>)
    ensures |Without(q, drop)| == NewIndex(drop, |q|)
  {
    if q != [] {
      WithoutLength(q[..|q| - 1], drop);
    }
  }

  /** An element that is not dropped is found at its new index. */
  lemma {:induction false} WithoutAt<T>(q: seq<T>, drop: set<nat>, k: nat)
    requires k < |q| && k !in drop
    ensures NewIndex(drop, k) < |Without(q, drop)| && Without(q, drop)[NewIndex(drop, k)] == q[k]
    decreases |q|
  {
    var front := q[..|q| - 1];
    WithoutLength(front, drop);
    if k < |q| - 1 {
      WithoutAt(front, drop, k);
    }
  }

  lemma {:induction false} NewIndexLess(drop: set<nat>, d: nat, k: nat)
    requires d in drop && d < k
    ensures NewIndex(drop, k) < k
  {
    if d < k - 1 {
      NewIndexLess(drop, d, k - 1);
    }
  }

  lemma {:induction false} WithoutNone<T>(q: seq<T>, drop: set<nat>)
    requires forall i :: 0 <= i < |q| ==> i !in drop
    ensures Without(q, drop) == q
  {
    if q != [] {
      WithoutNone(q[..|q| - 1], drop);
    }
  }

  /** Dropping one index cuts the element out. */
  lemma {:induction false} WithoutOne<T>(q: seq<T>, i: nat)
    requires i < |q|
    ensures Without(q, {i}) == q[..i] + q[i + 1..]
  {
    var n := |q| - 1;
    if i == n {
      WithoutNone(q[..n], {i});
    } else {
      WithoutOne(q[..n], i);
    }
  }

  /** What is left has come from some index that was not dropped. */
  lemma {:induction false} WithoutFrom<T>(q: seq<T>, drop: set<nat>, j: nat) returns (k: nat)
    requires j < |Without(q, drop)|
    ensures k < |q| && k !in drop && NewIndex(drop, k) == j && q[k] == Without(q, drop)[j]
  {
    var n := |q| - 1;
    WithoutLength(q[..n], drop);
    if j < |Without(q[..n], drop)| {
      k := WithoutFrom(q[..n], drop, j);
    } else {
      k := n;
    }
  }

  lemma {:induction false} WithoutSame<T>(q: seq<T>, a: set<nat>, b: set<nat>)
    requires forall i: nat :: i < |q| ==> (i in a <==> i in b)
    ensures Without(q, a) == Without(q, b)
  {
    if q != [] {
      WithoutSame(q[..|q| - 1], a, b);
    }
  }

  lemma {:induction false} BelowDropped<T>(q: seq<T>, n: nat)
    requires n <= |q|
    ensures Without(q, Below(n)) == q[n..]
  {
    if q != [] {
      var front := q[..|q| - 1];
      if n < |q| {
        BelowDropped(front, n);
      } else {
        BelowDropped(front, n - 1);
        WithoutSame(front, Below(n), Below(n - 1));
      }
    }
  }
}
