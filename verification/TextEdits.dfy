/** Combining queued text edits keeps what each window of each client is sent, and its order against keys and mouse. */
module TextEdits {
  import opened Wrappers
  import opened Messages
  import opened QueuePut

  /** What a window of a client sees of a message. */
  datatype Piece = Text(text: string) | Remove(before: int, after: int) | Barrier(msg: Msg)

  function PieceOf(m: Msg, client: string, id: string): (ps: seq<Piece>)
    ensures |ps| <= 1
  {
    match m
    case OneToken(_) => [Barrier(m)]
    case Client(c, command) =>
      if c != client then []
      else (match command
        case Key(_) => [Barrier(m)]
        case Mouse(_) => [Barrier(m)]
        case WindowKey(_) => [Barrier(m)]
        case TextInput(i, text) => if i == id then [Text(text)] else []
        case RemoveText(i, before, after) => if i == id then [Remove(before, after)] else []
        case _ => [])
    case _ => []
  }

  function Pieces(q: seq<Msg>, client: string, id: string): seq<Piece> {
    if q == [] then [] else Pieces(q[..|q| - 1], client, id) + PieceOf(q[|q| - 1], client, id)
  }

  /** Adds a piece, combining it with the one before where both are of a kind. */
  function Add(ps: seq<Piece>, p: Piece): seq<Piece> {
    if ps == [] then [p]
    else
      var front, last := ps[..|ps| - 1], ps[|ps| - 1];
      if last.Text? && p.Text? then front + [Text(last.text + p.text)]
      else if last.Remove? && p.Remove? then front + [Remove(last.before + p.before, last.after + p.after)]
      else ps + [p]
  }

  /** The pieces with all adjacent ones of a kind combined. */
  function Combined(ps: seq<Piece>): seq<Piece> {
    if ps == [] then [] else Add(Combined(ps[..|ps| - 1]), ps[|ps| - 1])
  }

  lemma {:induction false} PiecesConcat(a: seq<Msg>, b: seq<Msg>, client: string, id: string)
    ensures Pieces(a + b, client, id) == Pieces(a, client, id) + Pieces(b, client, id)
    decreases |b|
  {
    if b == [] {
      assert a + b == a;
    } else {
      assert (a + b)[..|a + b| - 1] == a + b[..|b| - 1];
      PiecesConcat(a, b[..|b| - 1], client, id);
    }
  }

  lemma PiecesAppend(q: seq<Msg>, m: Msg, client: string, id: string)
    ensures Pieces(q + [m], client, id) == Pieces(q, client, id) + PieceOf(m, client, id)
  {
    assert (q + [m])[..|q|] == q;
  }

  /** Messages that no window sees can come and go. */
  lemma {:induction false} PiecesWithout(q: seq<Msg>, drop: set<nat>, client: string, id: string)
    requires forall i :: i in drop && i < |q| ==> PieceOf(q[i], client, id) == []
    ensures Pieces(Without(q, drop), client, id) == Pieces(q, client, id)
  {
    if q != [] {
      var front := q[..|q| - 1];
      PiecesWithout(front, drop, client, id);
      if |q| - 1 !in drop {
        PiecesAppend(Without(front, drop), q[|q| - 1], client, id);
      } else {
        assert Without(q, drop) == Without(front, drop);
      }
    }
  }

  lemma {:induction false} NoPieces(q: seq<Msg>, client: string, id: string)
    requires forall i :: 0 <= i < |q| ==> PieceOf(q[i], client, id) == []
    ensures Pieces(q, client, id) == []
  {
    if q != [] {
      NoPieces(q[..|q| - 1], client, id);
    }
  }

  lemma ThreePieces(x: Msg, m: Msg, client: string, id: string)
    requires IsEdit(m) && Joins(m, x) && m.client == client && m.command.id == id
    ensures |PieceOf(x, client, id)| == |PieceOf(m, client, id)| == |PieceOf(Joined(x, m), client, id)| == 1
    ensures var a, b, j := PieceOf(x, client, id)[0], PieceOf(m, client, id)[0], PieceOf(Joined(x, m), client, id)[0];
      || (a.Text? && b.Text? && j == Text(a.text + b.text))
      || (a.Remove? && b.Remove? && j == Remove(a.before + b.before, a.after + b.after))
  {
  }

  /** Sending two edits of a kind, or the combined one, comes to the same. */
  lemma CombinedTwo(ps: seq<Piece>, x: Msg, m: Msg, client: string, id: string)
    requires IsEdit(m) && Joins(m, x) && m.client == client && m.command.id == id
    ensures Combined(ps + PieceOf(x, client, id) + PieceOf(m, client, id)) == Combined(ps + PieceOf(Joined(x, m), client, id))
  {
    ThreePieces(x, m, client, id);
    hide PieceOf, Joined, Joins;
    var a, b := PieceOf(x, client, id)[0], PieceOf(m, client, id)[0];
    var j := PieceOf(Joined(x, m), client, id)[0];
    assert (ps + [a] + [b])[..|ps| + 1] == ps + [a] && (ps + [a])[..|ps|] == ps && (ps + [j])[..|ps|] == ps;
    AddTwice(Combined(ps), a, b, j);
    assert PieceOf(x, client, id) == [a] && PieceOf(m, client, id) == [b] && PieceOf(Joined(x, m), client, id) == [j];
  }

  lemma AddTwice(ps: seq<Piece>, a: Piece, b: Piece, j: Piece)
    requires (a.Text? && b.Text? && j == Text(a.text + b.text))
          || (a.Remove? && b.Remove? && j == Remove(a.before + b.before, a.after + b.after))
    ensures Add(Add(ps, a), b) == Add(ps, j)
  {
    if ps != [] && a.Text? && ps[|ps| - 1].Text? {
      var t := ps[|ps| - 1].text;
      assert t + a.text + b.text == t + (a.text + b.text);
    }
  }

  /** What a window is sent, in total, by messages already delivered and a queue. */
  function Sees(delivered: seq<Msg>, q: seq<Msg>, client: string, id: string): seq<Piece> {
    Combined(Pieces(delivered, client, id) + Pieces(q, client, id))
  }

  /** Behind the edit that m is combined with, its window sees nothing. */
  lemma NothingBehind(q: seq<Msg>, m: Msg, i: nat)
    requires IsEdit(m) && FindEdit(q, m) == Some(i)
    ensures Pieces(q[i + 1..], m.client, m.command.id) == []
  {
    var back := q[i + 1..];
    forall k | 0 <= k < |back| ensures PieceOf(back[k], m.client, m.command.id) == [] {
      assert !Stops(m, q[i + 1 + k]) && !Joins(m, q[i + 1 + k]);
    }
    NoPieces(back, m.client, m.command.id);
  }

  lemma CombinedPut(q: seq<Msg>, m: Msg, i: nat)
    requires IsEdit(m) && FindEdit(q, m) == Some(i)
    ensures PutOne(q, m) == q[..i] + q[i + 1..] + [Joined(q[i], m)]
  {
    hide FindEdit, Stops, Joins, Joined;
    WithoutOne(q, i);
  }

  lemma EditPieces(q: seq<Msg>, m: Msg, i: nat, client: string, id: string)
    requires IsEdit(m) && FindEdit(q, m) == Some(i)
    ensures Pieces(q, client, id) == Pieces(q[..i], client, id) + PieceOf(q[i], client, id) + Pieces(q[i + 1..], client, id)
    ensures Pieces(PutOne(q, m), client, id)
            == Pieces(q[..i], client, id) + Pieces(q[i + 1..], client, id) + PieceOf(Joined(q[i], m), client, id)
  {
    hide FindEdit, PieceOf, Pieces, Stops, Joins, Joined;
    var front, x, back, j := q[..i], q[i], q[i + 1..], Joined(q[i], m);
    CombinedPut(q, m, i);
    hide PutOne;
    PiecesAppend(front + back, j, client, id);
    PiecesConcat(front, back, client, id);
    assert q == front + [x] + back;
    PiecesConcat(front + [x], back, client, id);
    PiecesAppend(front, x, client, id);
  }

  lemma EditPut(delivered: seq<Msg>, q: seq<Msg>, m: Msg, client: string, id: string)
    requires IsEdit(m) && FindEdit(q, m).Some?
    ensures Sees(delivered, PutOne(q, m), client, id)
            == Combined(Pieces(delivered, client, id) + Pieces(q, client, id) + PieceOf(m, client, id))
  {
    hide Combined, FindEdit, Pieces, PutOne;
    var i := FindEdit(q, m).value;
    EditPieces(q, m, i, client, id);
    var d, f, b := Pieces(delivered, client, id), Pieces(q[..i], client, id), Pieces(q[i + 1..], client, id);
    var x, p, j := PieceOf(q[i], client, id), PieceOf(m, client, id), PieceOf(Joined(q[i], m), client, id);
    if m.client == client && m.command.id == id {
      NothingBehind(q, m, i);
      CombinedTwo(d + f, q[i], m, client, id);
      assert d + (f + [] + j) == d + f + j && d + (f + x + []) + p == d + f + x + p;
    } else {
      assert d + (f + b + []) == d + (f + [] + b) + [];
    }
  }

  lemma DroppedUnseen(q: seq<Msg>, m: Msg, i: nat, client: string, id: string)
    requires !(IsEdit(m) && FindEdit(q, m).Some?) && i in PutDrop(q, m)
    ensures PieceOf(q[i], client, id) == []
  {
    hide FindEdit, FindFirst, Absorb;
  }

  lemma NewSeen(q: seq<Msg>, m: Msg, client: string, id: string)
    requires !(IsEdit(m) && FindEdit(q, m).Some?)
    ensures PieceOf(PutNew(q, m), client, id) == PieceOf(m, client, id)
  {
    hide FindEdit, FindFirst, Absorb;
  }

  lemma OtherPut(delivered: seq<Msg>, q: seq<Msg>, m: Msg, client: string, id: string)
    requires !(IsEdit(m) && FindEdit(q, m).Some?)
    ensures Sees(delivered, PutOne(q, m), client, id)
            == Combined(Pieces(delivered, client, id) + Pieces(q, client, id) + PieceOf(m, client, id))
  {
    hide Combined, PieceOf, Pieces, PutDrop, PutNew, FindEdit;
    var drop := PutDrop(q, m);
    forall i | i in drop && i < |q| ensures PieceOf(q[i], client, id) == [] {
      DroppedUnseen(q, m, i, client, id);
    }
    PiecesWithout(q, drop, client, id);
    PiecesAppend(Without(q, drop), PutNew(q, m), client, id);
    NewSeen(q, m, client, id);
    var d, w, p := Pieces(delivered, client, id), Pieces(q, client, id), PieceOf(m, client, id);
    assert d + (w + p) == d + w + p;
  }

  lemma CombinedAppend(a: seq<Piece>, b: seq<Piece>, p: seq<Piece>)
    requires Combined(a) == Combined(b) && |p| <= 1
    ensures Combined(a + p) == Combined(b + p)
  {
    if p == [] {
      assert a + p == a && b + p == b;
    } else {
      assert (a + p)[..|a|] == a && (b + p)[..|b|] == b;
    }
  }

  /** If delivered and queued messages come to what was sent, they still do once one more is sent and queued. */
  lemma PutSees(delivered: seq<Msg>, q: seq<Msg>, sent: seq<Msg>, m: Msg, client: string, id: string)
    requires Sees(delivered, q, client, id) == Combined(Pieces(sent, client, id))
    ensures Sees(delivered, PutOne(q, m), client, id) == Combined(Pieces(sent + [m], client, id))
  {
    hide Combined, FindEdit, PutOne;
    PiecesAppend(sent, m, client, id);
    CombinedAppend(Pieces(delivered, client, id) + Pieces(q, client, id), Pieces(sent, client, id), PieceOf(m, client, id));
    if IsEdit(m) && FindEdit(q, m).Some? {
      EditPut(delivered, q, m, client, id);
    } else {
      OtherPut(delivered, q, m, client, id);
    }
  }
}
