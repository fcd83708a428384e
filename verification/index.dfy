/**
 * The per-connection relay handlers of the signaling server: ICE
 * candidates and session descriptions go to the sender's counterpart as
 * the registry names it, chat text goes to the room the client names.
 */
module Relay {
  import opened Wrappers
  import opened Types
  import opened Lib
  import opened LibProofs

  /** The counterpart a `getType` result names: `p2id` for a `p1` sender, `p1id` for a `p2` sender. */
  function Counterpart(info: TypeInfo): Option<ConnId> {
    match info
    case AsP1(p2id) => p2id
    case AsP2(p1id) => p1id
  }

  /** Only one entry can be the first that holds id. */
  lemma FirstHoldingUnique(es: seq<Entry>, id: ConnId, i: int, j: int)
    requires FirstHolding(es, id, i) && FirstHolding(es, id, j)
    ensures i == j
  {
  }

  /**
   * The connection a signaling message from sender is forwarded to: the
   * occupant of the opposite slot in the first room holding sender, and
   * nobody when sender is in no room or that slot is empty.
   */
  function RelayTarget(sender: ConnId, es: seq<Entry>): (t: Option<ConnId>)
    ensures Absent(es, sender) ==> t.None?
    ensures forall i :: FirstHolding(es, sender, i) ==> t == Counterpart(Opposite(es[i].room, sender))
  {
    match GetType(sender, es)
    case None => None
    case Some(info) =>
      assert forall i :: FirstHolding(es, sender, i) ==> info == Opposite(es[i].room, sender) by {
        forall i | FirstHolding(es, sender, i) ensures info == Opposite(es[i].room, sender) {
          var k :| FirstHolding(es, sender, k) && info == Opposite(es[k].room, sender);
          FirstHoldingUnique(es, sender, i, k);
        }
      }
      Counterpart(info)
  }

  /** `ice:send`: forward the candidate, tagged with its sender, to the counterpart, or drop it. */
  function IceRelay(sender: ConnId, candidate: Blob, es: seq<Entry>): (r: Option<Emit>)
    ensures r.None? <==> RelayTarget(sender, es).None?
    ensures r.Some? ==> r.value.target == Conn(RelayTarget(sender, es).value)
    ensures r.Some? ==> r.value.message == IceReply(candidate, sender)
  {
    match RelayTarget(sender, es)
    case None => None
    case Some(target) => Some(Emit(Conn(target), IceReply(candidate, sender)))
  }

  /** `sdp:send`: forward the description, tagged with its sender, to the counterpart, or drop it. */
  function SdpRelay(sender: ConnId, sdp: Blob, es: seq<Entry>): (r: Option<Emit>)
    ensures r.None? <==> RelayTarget(sender, es).None?
    ensures r.Some? ==> r.value.target == Conn(RelayTarget(sender, es).value)
    ensures r.Some? ==> r.value.message == SdpReply(sdp, sender)
  {
    match RelayTarget(sender, es)
    case None => None
    case Some(target) => Some(Emit(Conn(target), SdpReply(sdp, sender)))
  }

  /** The label a chat line carries, chosen from the role the client claims. */
  function Label(senderType: string): (l: string)
    ensures l == "You: " <==> senderType == "p1"
    ensures l == "Stranger: " <==> senderType != "p1"
  {
    if senderType == "p1" then "You: " else "Stranger: "
  }

  /**
   * `send-message`: the text goes, labelled, to every member of the named
   * room except the sender; the registry is not consulted.
   */
  function ChatRelay(sender: ConnId, message: string, senderType: string, roomId: RoomId): (e: Emit)
    ensures e.target == RoomExcept(roomId, sender)
    ensures e.message.GetMessage? && e.message.text == message
    ensures e.message.senderLabel == "You: " <==> senderType == "p1"
    ensures senderType != "p1" ==> e.message.senderLabel == "Stranger: "
  {
    Emit(RoomExcept(roomId, sender), GetMessage(message, Label(senderType)))
  }

  /** With no connection in two slots, a signaling message is never sent back to its sender. */
  lemma RelayNeverToSender(es: seq<Entry>, sender: ConnId)
    requires DistinctOccupants(es)
    ensures RelayTarget(sender, es) != Some(sender)
  {
    if !Absent(es, sender) {
      var i :| 0 <= i < |es| && Occupies(es[i].room, sender);
      GetTypeUnique(es, sender, i);
    }
  }

  /** In a paired room each side's candidates and descriptions reach exactly the other side. */
  lemma RelayPaired(es: seq<Entry>, i: nat, a: ConnId, b: ConnId, c: Blob, d: Blob)
    requires DistinctOccupants(es) && i < |es|
    requires es[i].room.p1 == Some(a) && es[i].room.p2 == Some(b)
    ensures IceRelay(a, c, es) == Some(Emit(Conn(b), IceReply(c, a)))
    ensures IceRelay(b, c, es) == Some(Emit(Conn(a), IceReply(c, b)))
    ensures SdpRelay(a, d, es) == Some(Emit(Conn(b), SdpReply(d, a)))
    ensures SdpRelay(b, d, es) == Some(Emit(Conn(a), SdpReply(d, b)))
  {
    GetTypeUnique(es, a, i);
    GetTypeUnique(es, b, i);
  }

  /** The `p1` of a room still waiting for a partner has nobody to signal: its messages are dropped. */
  lemma RelayWaitingDropped(es: seq<Entry>, i: nat, a: ConnId, c: Blob)
    requires DistinctOccupants(es) && i < |es|
    requires es[i].room.p1 == Some(a) && es[i].room.p2 == None
    ensures IceRelay(a, c, es) == None && SdpRelay(a, c, es) == None
  {
    GetTypeUnique(es, a, i);
  }

  /**
   * Once the partner b of a paired room has disconnected, the remaining
   * occupant a has no counterpart, so a's signaling is dropped until
   * someone joins.
   */
  lemma RelayAfterPartnerLeft(es: seq<Entry>, i: nat, a: ConnId, b: ConnId, c: Blob)
    requires DistinctOccupants(es) && i < |es|
    requires es[i].room.p1 == Some(a) && es[i].room.p2 == Some(b)
    ensures var rooms := AfterDisconnect(es, b).rooms;
            IceRelay(a, c, rooms) == None && SdpRelay(a, c, rooms) == None
  {
    DisconnectClearsP2(es, i, a, b);
    DisconnectKeepsDistinct(es, b);
    var rooms := AfterDisconnect(es, b).rooms;
    assert rooms[i] == Entry(es[i].key, es[i].room.(p2 := None, isAvailable := true));
    GetTypeUnique(rooms, a, i);
  }

  /**
   * Once the creator a of a paired room has disconnected, the promoted
   * partner b has no counterpart either.
   */
  lemma RelayAfterCreatorLeft(es: seq<Entry>, i: nat, a: ConnId, b: ConnId, c: Blob)
    requires DistinctOccupants(es) && i < |es|
    requires es[i].room.p1 == Some(a) && es[i].room.p2 == Some(b)
    ensures var rooms := AfterDisconnect(es, a).rooms;
            IceRelay(b, c, rooms) == None && SdpRelay(b, c, rooms) == None
  {
    DisconnectPromotes(es, i, a, b);
    DisconnectKeepsDistinct(es, a);
    var rooms := AfterDisconnect(es, a).rooms;
    assert rooms[i] == Entry(es[i].key, es[i].room.(p1 := Some(b), p2 := None, isAvailable := true));
    GetTypeUnique(rooms, b, i);
  }

  /** A second connection b joins the room a is waiting in. */
  lemma PairUp(a: ConnId, b: ConnId, r: RoomId, freshId: RoomId)
    requires a != b
    ensures AfterStart([Entry(r, Room(r, Some(a), None, true))], b, freshId)
         == StartOutcome(P2, [Entry(r, Room(r, Some(a), Some(b), false))],
                         [Emit(Conn(a), RemoteSocket(b)), Emit(Conn(b), RemoteSocket(a)), Emit(Conn(b), RoomIdMsg(r))])
  {
    var es := [Entry(r, Room(r, Some(a), None, true))];
    assert FindAvailableRoom(es, b) == Some(es[0]);
  }

  /** The creator a of a paired room leaves: b takes the `p1` slot and is told. */
  lemma CreatorLeaves(a: ConnId, b: ConnId, r: RoomId)
    requires a != b
    ensures AfterDisconnect([Entry(r, Room(r, Some(a), Some(b), false))], a)
         == Transition([Entry(r, Room(r, Some(b), None, true))], [Emit(Conn(b), Disconnected)])
  {
    var es := [Entry(r, Room(r, Some(a), Some(b), false))];
    assert es[..0] == [];
  }

  /** A chat line sent by a connection claiming `p2` is labelled `Stranger: `. */
  lemma ChatAsP2(sender: ConnId, message: string, roomId: RoomId)
    ensures ChatRelay(sender, message, "p2", roomId) == Emit(RoomExcept(roomId, sender), GetMessage(message, "Stranger: "))
  {
    assert "p2" != "p1" by {
      assert "p2"[1] != "p1"[1];
    }
  }

  /** The first connection to start creates room r and waits in it. */
  lemma OpenFirst(a: ConnId, r: RoomId)
    ensures AfterStart([], a, r)
         == StartOutcome(P1, [Entry(r, Room(r, Some(a), None, true))], [Emit(Conn(a), RoomIdMsg(r))])
  {
  }

  /** In a one-room paired registry, b's candidate reaches a. */
  lemma PairedIce(a: ConnId, b: ConnId, r: RoomId, c: Blob)
    requires a != b
    ensures IceRelay(b, c, [Entry(r, Room(r, Some(a), Some(b), false))]) == Some(Emit(Conn(a), IceReply(c, b)))
  {
    var es := [Entry(r, Room(r, Some(a), Some(b), false))];
    assert FirstHolding(es, b, 0);
  }

  /**
   * One session from an empty registry: x creates room r, y joins it and
   * y's candidate reaches x, y's chat line as `p2` reaches the rest
   * of r labelled `Stranger: `, x leaves and y becomes the waiting `p1`
   * of r, then z joins y in the same room. Each step starts from the
   * registry the previous step produced.
   */
  lemma Session(x: ConnId, y: ConnId, z: ConnId, r: RoomId, r2: RoomId, r3: RoomId, c: Blob, m: string)
    requires x != y && y != z
    ensures AfterStart([], x, r)
         == StartOutcome(P1, [Entry(r, Room(r, Some(x), None, true))], [Emit(Conn(x), RoomIdMsg(r))])
    ensures AfterStart([Entry(r, Room(r, Some(x), None, true))], y, r2)
         == StartOutcome(P2, [Entry(r, Room(r, Some(x), Some(y), false))],
                         [Emit(Conn(x), RemoteSocket(y)), Emit(Conn(y), RemoteSocket(x)), Emit(Conn(y), RoomIdMsg(r))])
    ensures IceRelay(y, c, [Entry(r, Room(r, Some(x), Some(y), false))]) == Some(Emit(Conn(x), IceReply(c, y)))
    ensures ChatRelay(y, m, "p2", r) == Emit(RoomExcept(r, y), GetMessage(m, "Stranger: "))
    ensures AfterDisconnect([Entry(r, Room(r, Some(x), Some(y), false))], x)
         == Transition([Entry(r, Room(r, Some(y), None, true))], [Emit(Conn(y), Disconnected)])
    ensures AfterStart([Entry(r, Room(r, Some(y), None, true))], z, r3).role == P2
    ensures AfterStart([Entry(r, Room(r, Some(y), None, true))], z, r3).rooms == [Entry(r, Room(r, Some(y), Some(z), false))]
  {
    OpenFirst(x, r);
    PairUp(x, y, r, r2);
    PairedIce(x, y, r, c);
    CreatorLeaves(x, y, r);
    PairUp(y, z, r, r3);
    ChatAsP2(y, m, r);
  }
}
