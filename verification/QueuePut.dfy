/** What queuing a message does to the queue: which messages it drops and what it appends. */
module QueuePut {
  import opened Arith
  import opened Wrappers
  import opened Messages

  const INT_MAX := 0x7fff_ffff
  const REASONABLE_X := 4 * 3840
  const REASONABLE_Y := 2 * 3840

  // ---- text edits -------------------------------------------------------

  predicate IsEdit(m: Msg) { m.Client? && (m.command.TextInput? || m.command.RemoveText?) }

  predicate IsBarrier(x: Msg, client: string) {
    || x.OneToken?
    || (x.Client? && x.client == client && (x.command.Key? || x.command.Mouse? || x.command.WindowKey?))
  }

  /** Behind x the edit m cannot be combined with anything. */
  predicate Stops(m: Msg, x: Msg)
    requires IsEdit(m)
  {
    || IsBarrier(x, m.client)
    || (x.Client? && x.client == m.client &&
        if m.command.TextInput? then x.command.RemoveText? || x.command.BadRemoveText?
        else x.command.TextInput? || x.command.BadTextInput?)
  }

  /** x is an edit of the same kind, client and window. */
  predicate Joins(m: Msg, x: Msg)
    requires IsEdit(m)
  {
    && IsEdit(x) && x.client == m.client && x.command.id == m.command.id
    && (x.command.TextInput? <==> m.command.TextInput?)
  }

  function Joined(x: Msg, m: Msg): Msg
    requires IsEdit(m) && Joins(m, x)
  {
    Client(m.client,
      if m.command.TextInput? then TextInput(m.command.id, x.command.text + m.command.text)
      else RemoveText(m.command.id, x.command.before + m.command.before, x.command.after + m.command.after))
  }

  /** The queued edit that m is combined with, looking back from the end. */
  function FindEdit(q: seq<Msg>, m: Msg): (r: Option<nat>)
    requires IsEdit(m)
    ensures r.Some? ==> r.value < |q| && Joins(m, q[r.value])
    ensures r.Some? ==> forall j :: r.value < j < |q| ==> !Stops(m, q[j]) && !Joins(m, q[j])
    ensures r.None? ==> forall i :: 0 <= i < |q| && Joins(m, q[i]) ==> exists j :: i <= j < |q| && Stops(m, q[j])
  {
    if q == [] then None
    else
      var x := q[|q| - 1];
      if Stops(m, x) then None
      else if Joins(m, x) then Some(|q| - 1)
      else FindEdit(q[..|q| - 1], m)
  }

  // ---- invalidations ----------------------------------------------------

  /** The rectangle, part and mode that the queue reads from an invalidation; "EMPTY" always reads as mode 0. */
  function Extract(a: Area): (r: Option<Area>)
    ensures r.Some? ==> r.value.Rect?
  {
    match a
    case Rect(_, _, _, _, _, _) => Some(a)
    case Empty(part, _) => Some(Rect(0, 0, INT_MAX, INT_MAX, part, 0))
    case NoArea(_) => None
  }

  predicate Inside(inner: Area, outer: Area)
    requires inner.Rect? && outer.Rect?
  {
    && outer.x <= inner.x && inner.x + inner.w <= outer.x + outer.w
    && outer.y <= inner.y && inner.y + inner.h <= outer.y + outer.h
  }

  predicate RectanglesIntersect(a: Area, b: Area)
    requires a.Rect? && b.Rect?
  {
    a.x + a.w >= b.x && a.x <= b.x + b.w && a.y + a.h >= b.y && a.y <= b.y + b.h
  }

  /** The smallest rectangle around both, with the part and mode of the first. */
  function Around(a: Area, b: Area): (r: Area)
    requires a.Rect? && b.Rect?
    ensures r.Rect? && r.part == a.part && r.mode == a.mode && Inside(a, r) && Inside(b, r)
  {
    var x, y := Min(a.x, b.x), Min(a.y, b.y);
    Rect(x, y, Max(a.x + a.w, b.x + b.w) - x, Max(a.y + a.h, b.y + b.h) - y, a.part, a.mode)
  }

  predicate Reasonable(a: Area)
    requires a.Rect?
  {
    a.w <= REASONABLE_X && a.h <= REASONABLE_Y
  }

  /** A queued invalidation of the same view, part and mode. */
  predicate SameTarget(x: Msg, view: string, r: Area)
    requires r.Rect?
  {
    && x.Callback? && x.view == view && x.payload.Invalidate? && Extract(x.payload.area).Some?
    && Extract(x.payload.area).value.part == r.part && Extract(x.payload.area).value.mode == r.mode
  }

  datatype Absorbed = Absorbed(drop: set<nat>, rect: Area, merged: bool)

  /** Travels over the first n messages, dropping what the growing rectangle covers or is joined with. */
  function Absorb(q: seq<Msg>, n: nat, view: string, r: Area): (a: Absorbed)
    requires n <= |q| && r.Rect?
    ensures a.rect.Rect? && a.rect.part == r.part && a.rect.mode == r.mode && Inside(r, a.rect)
    ensures a.merged ==> Reasonable(a.rect)
    ensures !a.merged ==> a.rect == r
    ensures forall i :: i in a.drop ==> i < n && SameTarget(q[i], view, r) && Inside(Extract(q[i].payload.area).value, a.rect)
  {
    if n == 0 then Absorbed({}, r, false)
    else
      var a := Absorb(q, n - 1, view, r);
      var x := q[n - 1];
      if !SameTarget(x, view, r) then a
      else
        var queued := Extract(x.payload.area).value;
        if Inside(queued, a.rect) then Absorbed(a.drop + {n - 1}, a.rect, a.merged)
        else if RectanglesIntersect(a.rect, queued) && Reasonable(Around(a.rect, queued)) then
          Absorbed(a.drop + {n - 1}, Around(a.rect, queued), true)
        else a
  }

  // ---- messages that replace older ones ---------------------------------

  const MODIFIED_STATUS := ".uno:ModifiedStatus"

  /** Messages of one class: a newer one makes an older one obsolete. */
  datatype Class =
    | StateOf(view: string, command: string)
    | CursorOf(view: string, kind: nat)
    | ViewOf(view: string, kind: nat, viewId: string)
    | TileOf(key: TileDesc)

  /** A tile request up to version, preview id and mode. */
  function TileKey(t: TileDesc): TileDesc { t.(ver := 0, id := 0, mode := 0) }

  function ClassOf(m: Msg): Option<Class> {
    if m.TileMsg? then Some(TileOf(TileKey(m.desc)))
    else if !m.Callback? then None
    else match m.payload
      case StateChanged(command, _) =>
        if command == "" || command == MODIFIED_STATUS then None else Some(StateOf(m.view, command))
      case CursorClass(kind, _) => Some(CursorOf(m.view, kind))
      case ViewCursor(kind, viewId, _) => Some(ViewOf(m.view, kind, viewId))
      case _ => None
  }

  /** Queuing m makes the queued x obsolete. */
  predicate Replaces(m: Msg, x: Msg) { ClassOf(m).Some? && ClassOf(x) == ClassOf(m) }

  function FindFirst(q: seq<Msg>, m: Msg, from: nat): (r: Option<nat>)
    requires from <= |q|
    ensures r.Some? ==> from <= r.value < |q| && Replaces(m, q[r.value])
    ensures r.Some? ==> forall j :: from <= j < r.value ==> !Replaces(m, q[j])
    ensures r.None? ==> forall j :: from <= j < |q| ==> !Replaces(m, q[j])
    decreases |q| - from
  {
    if from == |q| then None else if Replaces(m, q[from]) then Some(from) else FindFirst(q, m, from + 1)
  }

  // ---- all together -----------------------------------------------------

  function ToSet(o: Option<nat>): set<nat> { if o.Some? then {o.value} else {} }

  /** The indices that queuing m drops. */
  function PutDrop(q: seq<Msg>, m: Msg): (d: set<nat>)
    ensures forall i :: i in d ==> i < |q|
  {
    if IsEdit(m) then ToSet(FindEdit(q, m))
    else if m.Callback? && m.payload.Invalidate? && Extract(m.payload.area).Some? then
      Absorb(q, |q|, m.view, Extract(m.payload.area).value).drop
    else ToSet(FindFirst(q, m, 0))
  }

  /** The message that is appended in the place of m. */
  function PutNew(q: seq<Msg>, m: Msg): Msg {
    if IsEdit(m) && FindEdit(q, m).Some? then Joined(q[FindEdit(q, m).value], m)
    else if m.Callback? && m.payload.Invalidate? && Extract(m.payload.area).Some? then
      var a := Absorb(q, |q|, m.view, Extract(m.payload.area).value);
      if a.merged then Callback(m.view, Invalidate(a.rect)) else m
    else m
  }

  /** Queues one message; a combined tile request is queued tile by tile. */
  function PutOne(q: seq<Msg>, m: Msg): seq<Msg> {
    Without(q, PutDrop(q, m)) + [PutNew(q, m)]
  }

  function PutTiles(q: seq<Msg>, tiles: seq<TileDesc>): seq<Msg> {
    if tiles == [] then q else PutOne(PutTiles(q, tiles[..|tiles| - 1]), TileMsg(tiles[|tiles| - 1]))
  }

  function Put(q: seq<Msg>, m: Msg): seq<Msg> {
    if m.TileCombine? then PutTiles(q, m.tiles) else PutOne(q, m)
  }
}
