/**
 * The values the matchmaking core stores and sends: rooms, registry
 * entries, the result of a role lookup and the records of outbound emits.
 */
module Types {
  import opened Wrappers

  /**
   * A Socket.IO connection id. It is opaque and assigned by the transport;
   * Socket.IO never hands out an empty id, so a slot holding an id is
   * "truthy" in JavaScript exactly when it is `Some`.
   */
  type ConnId = s: string | s != "" witness "a"

  /** A room key, generated by `uuidv4` when the room is created. */
  type RoomId = string

  /** An ICE candidate or session description, relayed without being read. */
  type Blob = string

  /** One two-slot room: `p1` is the creator (or the partner promoted after it left), `p2` the partner who joined. */
  datatype Room = Room(roomId: RoomId, p1: Option<ConnId>, p2: Option<ConnId>, isAvailable: bool)

  /** One `[roomId, room]` pair of the registry, in insertion order. */
  datatype Entry = Entry(key: RoomId, room: Room)

  /** The role reported to the `start` callback. */
  datatype Role = P1 | P2

  /** The non-false result of `getType`: the caller's slot and the opposite slot's occupant. */
  datatype TypeInfo = AsP1(p2id: Option<ConnId>) | AsP2(p1id: Option<ConnId>)

  /** Where an emit goes: one connection, or every member of a room but the sender. */
  datatype Target = Conn(id: ConnId) | RoomExcept(roomId: RoomId, except: ConnId)

  /** The outbound events, one constructor per event name, with their arguments. */
  datatype Message =
    | RemoteSocket(peer: ConnId)              // 'remote-socket'
    | RoomIdMsg(roomId: RoomId)               // 'roomid'
    | Disconnected                            // 'disconnected'
    | IceReply(candidate: Blob, from: ConnId) // 'ice:reply'
    | SdpReply(sdp: Blob, from: ConnId)       // 'sdp:reply'
    | GetMessage(text: string, senderLabel: string) // 'get-message'

  /** One outbound emit, as appended to the log of sent events. */
  datatype Emit = Emit(target: Target, message: Message)

  /** Connection c sits in one of the slots of room r. */
  predicate Occupies(r: Room, c: ConnId) {
    r.p1 == Some(c) || r.p2 == Some(c)
  }
}
