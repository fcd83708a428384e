/**
 * The matchmaking and room-lifecycle rules of the signaling server, as
 * functions over the registry's entries: the first-available search,
 * the role lookup, and what `start` and `disconnect` do to the registry
 * and to the log of sent events.
 */
module Lib {
  import opened Wrappers
  import opened Types
  import opened RoomTable

  // ---------------------------------------------------------------------
  // Invariants of a stored registry

  /**
   * One stored room is consistent: its key is its `roomId`, its `p1` is
   * occupied (I1), and it is available exactly when `p2` is empty (I2).
   */
  predicate RoomOk(e: Entry) {
    && e.room.roomId == e.key
    && e.room.p1.Some?
    && (e.room.isAvailable <==> e.room.p2.None?)
  }

  /** Keys are unique (I4) and every stored room is consistent. */
  ghost predicate WellFormed(es: seq<Entry>) {
    UniqueKeys(es) && forall i :: 0 <= i < |es| ==> RoomOk(es[i])
  }

  /** Every stored room has its `p1` occupied (I1). */
  ghost predicate P1Occupied(es: seq<Entry>) {
    forall i :: 0 <= i < |es| ==> es[i].room.p1.Some?
  }

  /** The two slots of a room never hold the same connection. */
  predicate SlotsDiffer(r: Room) {
    r.p1.None? || r.p1 != r.p2
  }

  /** No connection id sits in two slots anywhere in the registry (I3). */
  ghost predicate DistinctOccupants(es: seq<Entry>) {
    && (forall i :: 0 <= i < |es| ==> SlotsDiffer(es[i].room))
    && (forall i, j, c :: 0 <= i < j < |es| && Occupies(es[i].room, c) ==> !Occupies(es[j].room, c))
  }

  /** Connection c sits in no room of the registry. */
  ghost predicate Absent(es: seq<Entry>, c: ConnId) {
    forall i :: 0 <= i < |es| ==> !Occupies(es[i].room, c)
  }

  // ---------------------------------------------------------------------
  // findAvailableRoom

  /** A room `findAvailableRoom` may offer to socketId: open, and its `p1` is not socketId. */
  predicate Eligible(r: Room, socketId: ConnId) {
    r.isAvailable && r.p1 != Some(socketId)
  }

  /** The first entry, in insertion order, whose room is eligible for socketId. */
  function FindAvailableRoom(es: seq<Entry>, socketId: ConnId): (r: Option<Entry>)
    ensures r.None? <==> forall i :: 0 <= i < |es| ==> !Eligible(es[i].room, socketId)
    ensures r.Some? ==> exists i :: 0 <= i < |es| && es[i] == r.value && FirstEligible(es, socketId, i)
  {
    if es == [] then None
    else if Eligible(es[0].room, socketId) then
      assert FirstEligible(es, socketId, 0);
      Some(es[0])
    else
      var r := FindAvailableRoom(es[1..], socketId);
      assert r.Some? ==> exists i :: 0 <= i < |es| && es[i] == r.value && FirstEligible(es, socketId, i) by {
        if r.Some? {
          var k :| 0 <= k < |es[1..]| && es[1..][k] == r.value && FirstEligible(es[1..], socketId, k);
          assert es[k + 1] == r.value;
          assert forall j :: 1 <= j < k + 1 ==> es[j] == es[1..][j - 1];
        }
      }
      r
  }

  /** Entry i is eligible for socketId and no earlier entry is. */
  predicate FirstEligible(es: seq<Entry>, socketId: ConnId, i: int) {
    && 0 <= i < |es|
    && Eligible(es[i].room, socketId)
    && forall j :: 0 <= j < i ==> !Eligible(es[j].room, socketId)
  }

  // ---------------------------------------------------------------------
  // getType

  /** The lookup result for a room that holds id: `p1` is checked before `p2`. */
  function Opposite(r: Room, id: ConnId): TypeInfo {
    if r.p1 == Some(id) then AsP1(r.p2) else AsP2(r.p1)
  }

  /** Entry i is the first entry whose room holds id. */
  predicate FirstHolding(es: seq<Entry>, id: ConnId, i: int) {
    && 0 <= i < |es|
    && Occupies(es[i].room, id)
    && forall j :: 0 <= j < i ==> !Occupies(es[j].room, id)
  }

  /**
   * `getType`: which slot id occupies in the first room that holds it,
   * with the occupant of the opposite slot; `None` stands for `false`.
   */
  function GetType(id: ConnId, es: seq<Entry>): (r: Option<TypeInfo>)
    ensures r.None? <==> Absent(es, id)
    ensures r.Some? ==> exists i :: FirstHolding(es, id, i) && r.value == Opposite(es[i].room, id)
  {
    if es == [] then None
    else if es[0].room.p1 == Some(id) then
      assert FirstHolding(es, id, 0);
      Some(AsP1(es[0].room.p2))
    else if es[0].room.p2 == Some(id) then
      assert FirstHolding(es, id, 0);
      Some(AsP2(es[0].room.p1))
    else
      var r := GetType(id, es[1..]);
      assert r.Some? ==> exists i :: FirstHolding(es, id, i) && r.value == Opposite(es[i].room, id) by {
        if r.Some? {
          var k :| FirstHolding(es[1..], id, k) && r.value == Opposite(es[1..][k].room, id);
          assert es[k + 1] == es[1..][k];
          assert forall j :: 1 <= j < k + 1 ==> es[j] == es[1..][j - 1];
          assert FirstHolding(es, id, k + 1);
        }
      }
      r
  }

  // ---------------------------------------------------------------------
  // handleStart

  /** The role reported to the caller, the registry after `start`, and what was emitted. */
  datatype StartOutcome = StartOutcome(role: Role, rooms: seq<Entry>, emits: seq<Emit>)

  /**
   * What `start` from caller does, freshId standing for the `uuidv4()` value:
   * join the first eligible room as `p2` and tell both sides, or create a
   * room with caller as `p1`.
   */
  function AfterStart(es: seq<Entry>, caller: ConnId, freshId: RoomId): (o: StartOutcome)
    requires P1Occupied(es)
    ensures o.role == P2 <==> exists i :: FirstEligible(es, caller, i)
    ensures o.role == P1 ==> o.emits == [Emit(Conn(caller), RoomIdMsg(freshId))]
    ensures o.role == P2 ==> |o.emits| == 3 && o.emits[2] == Emit(Conn(caller), RoomIdMsg(FindAvailableRoom(es, caller).value.key))
  {
    match FindAvailableRoom(es, caller)
    case Some(found) =>
      var updated := found.room.(isAvailable := false, p2 := Some(caller));
      var p1 := found.room.p1.value;
      StartOutcome(
        P2,
        Set(es, found.key, updated),
        [ Emit(Conn(p1), RemoteSocket(caller)),
          Emit(Conn(caller), RemoteSocket(p1)),
          Emit(Conn(caller), RoomIdMsg(found.key)) ])
    case None =>
      var created := Room(freshId, Some(caller), None, true);
      StartOutcome(P1, Set(es, freshId, created), [Emit(Conn(caller), RoomIdMsg(freshId))])
  }

  // ---------------------------------------------------------------------
  // handleDisconnect

  /** What happens to one room when id disconnects. */
  datatype LeaveResult = Untouched | Updated(room: Room, notify: ConnId) | Deleted

  /**
   * The recovery rule for one room: a leaving `p1` is replaced by `p2` if
   * there is one, a leaving `p2` is cleared; a room left empty is deleted.
   */
  function Leave(r: Room, id: ConnId): (l: LeaveResult)
    ensures l.Untouched? <==> !Occupies(r, id)
    ensures l.Updated? ==> l.room.roomId == r.roomId && l.room.p1.Some? && l.room.p2.None? && l.room.isAvailable
    ensures l.Updated? ==> Occupies(r, l.notify) && l.room.p1 == Some(l.notify)
  {
    if r.p1 == Some(id) then
      if r.p2.Some? then Updated(r.(p1 := r.p2, p2 := None, isAvailable := true), r.p2.value)
      else Deleted
    else if r.p2 == Some(id) then
      if r.p1.Some? then Updated(r.(p2 := None, isAvailable := true), r.p1.value)
      else Deleted
    else Untouched
  }

  /** A registry and the events emitted while producing it. */
  datatype Transition = Transition(rooms: seq<Entry>, emits: seq<Emit>)

  /**
   * What `disconnect` of id does: every entry, in insertion order, goes
   * through the recovery rule; each updated room notifies its remaining
   * occupant with one `disconnected` event.
   */
  function AfterDisconnect(es: seq<Entry>, id: ConnId): (t: Transition)
    ensures |t.rooms| <= |es| && |t.emits| <= |es|
    ensures forall k :: 0 <= k < |t.emits| ==> t.emits[k].message == Disconnected
  {
    if es == [] then Transition([], [])
    else
      var t := AfterDisconnect(es[..|es| - 1], id);
      var e := es[|es| - 1];
      match Leave(e.room, id)
      case Untouched => Transition(t.rooms + [e], t.emits)
      case Updated(r, n) => Transition(t.rooms + [Entry(e.key, r)], t.emits + [Emit(Conn(n), Disconnected)])
      case Deleted => Transition(t.rooms, t.emits)
  }
}
