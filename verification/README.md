# Random-pairing signaling server: matchmaking and room lifecycle

This project models the core of a small Socket.IO signaling server for
one-to-one video chat between strangers. The server keeps a registry
`rooms`: a JavaScript `Map` from room id to a two-slot room. `p1` is the
connection that created the room, or the partner promoted after it left;
`p2` is the partner who joined. A room is `isAvailable` while it waits
for a partner.

- `start` (`handleStart`) seats the caller in the first available room
  whose `p1` is not the caller. If no such room exists, it creates a new
  room under a fresh id. It reports the role `p1` or `p2` and tells both
  sides who their peer is.
- `disconnect` (`handleDisconnect`) scans every room.
  - When the creator leaves a paired room, the partner is promoted to `p1`.
  - When the partner leaves, its slot is cleared.
  - A room left with nobody in it is deleted.
  - The remaining occupant is told `disconnected`.
- `getType` finds the connection's slot and its counterpart. The
  `ice:send` and `sdp:send` handlers use it to forward WebRTC signaling
  to that counterpart, or to drop the message when there is none.
- `send-message` forwards chat text to the named room with a label.

Modules:

- `Wrappers` holds `Option`.
- `Types` holds rooms, entries, `getType` results and outbound events.
  The `./types` module is not part of this model, so these are
  reconstructed from their uses.
- `RoomTable` models the `Map` as its entries in insertion order.
  - `set` on a present key replaces the entry where it stands.
  - `set` on a new key appends.
  - `delete` removes the entry.
- `Lib` holds the first-match searches as recursive functions. It also
  holds `AfterStart` and `AfterDisconnect`: what each handler does to the
  registry and which events it emits.
- `LibProofs` holds the lemmas about those functions.
- `RoomRegistry` is the class whose `Start` and `Disconnect` methods
  update the registry and the event log in place. The methods are proved
  equal to `AfterStart` and `AfterDisconnect`.
- `Relay` holds the three relay handlers, as pure functions of the
  registry's entries. Each returns the one emit it would send, or `None`
  when the message is dropped; they do not append to `outbox`.

The invariants the server relies on are:

- I1: every stored room has `p1` occupied.
- I2: `isAvailable` holds exactly when `p2` is empty.
- I3: no connection sits in two slots.
- I4: keys are unique, and each key equals its room's `roomId`.

I1, I2 and I4 are `Lib.WellFormed`; I3 is `Lib.DistinctOccupants`.
Both handlers preserve them. I3 is proved for `start` when the caller
occupies no slot yet.

Connection ids are modelled as non-empty strings, because Socket.IO never
issues an empty id. So a slot is "truthy" in JavaScript exactly when it
is `Some`. Each outbound emit is one `Emit` record. `Start` and
`Disconnect` append theirs to the registry's `outbox`; their targets are
single connections (`io.to(id)`, `socket.emit`). The relay functions
return their emit instead: `ice:reply` and `sdp:reply` go to a single
connection, and the chat line goes to a room minus the sender
(`socket.to(roomId)`, the only such target in the source).

## Model

| member | source | states |
|---|---|---|
| RoomTable.Set | src/lib.ts:27 | `Map.set`: the keys afterwards are the old keys plus k; the size grows by one exactly when k was new |
| RoomTable.Delete | src/lib.ts:67 | `Map.delete`: no key is added; the size shrinks by one exactly when k was present |
| RoomTable.Lookup | src/lib.ts:27 | the read-back `Map.get` semantics, used only to state what `set` (here) and `delete` do, as in LookupSet and LookupDelete: it finds a room exactly when the key is present; the source itself never calls `get` |
| RoomTable.LookupSet | src/lib.ts:27 | after `set(k, v)`, `get(k)` is v and every other key reads as before |
| RoomTable.LookupDelete | src/lib.ts:76 | after `delete(k)` on a map with unique keys, k is absent and every other key reads as before |
| RoomTable.SetDeleteUnique | src/lib.ts:65 | `set` and `delete` keep the keys unique |
| RoomTable.SetAt | src/lib.ts:65 | `set` on the key of entry i replaces entry i in place and leaves every other entry and the order unchanged |
| RoomTable.SetAppends | src/lib.ts:43 | `set` on a new key appends one entry at the end |
| RoomTable.DeleteAt | src/lib.ts:67 | `delete` of the key of entry i removes exactly entry i, keeping the order of the rest |
| RoomTable.SetMembers | src/lib.ts:27 | every entry after `set` is the new entry or an old one |
| Lib.FindAvailableRoom | src/lib.ts:100-110 | returns no room exactly when no room is available with a `p1` other than the caller; otherwise returns the first such entry in insertion order |
| LibProofs.FindAvailableAt | src/lib.ts:104-109 | when entry i is the first eligible one, the search returns entry i |
| Lib.GetType | src/lib.ts:85-95 | `false` exactly when the id is in no room; otherwise the slot the id holds in the first room holding it, with the opposite slot's occupant, `p1` checked before `p2` |
| LibProofs.GetTypeUnique | src/lib.ts:85-95 | under I3, the lookup answers from the one room holding the id, and the counterpart reported is never the id itself |
| Lib.AfterStart | src/lib.ts:8-48 | the role is `p2` exactly when an eligible room exists; creating emits one `roomid` to the caller; joining emits three events, the last being `roomid` with the joined key |
| LibProofs.StartJoins | src/lib.ts:14-32 | joining rewrites the first eligible entry in place with `p2` set to the caller and `isAvailable` false, keeping key and `p1`; every other entry is unchanged; `p1` is not the caller; the events are `remote-socket` to `p1` with the caller, `remote-socket` to the caller with `p1`, then `roomid` |
| LibProofs.StartCreates | src/lib.ts:33-47 | with no eligible room and a fresh id, a room with the caller as `p1`, `p2` empty and available is appended; the role is `p1` and the only event is `roomid` |
| LibProofs.StartKeepsWellFormed | src/lib.ts:21-43 | `start` preserves I1, I2 and I4 |
| LibProofs.StartKeepsDistinct | src/lib.ts:14-43 | `start` by a caller in no room, with a fresh id, preserves I3 and leaves the caller seated |
| Lib.Leave | src/lib.ts:59-78 | a room is untouched exactly when the id is in neither slot; an updated room keeps its id, has `p1` occupied, `p2` empty and is available, and the notified connection is the one left in `p1` |
| Lib.AfterDisconnect | src/lib.ts:53-80 | the scan never adds entries and emits at most one event per entry, each of them `disconnected` |
| LibProofs.DisconnectAppend | src/lib.ts:58 | the scan handles each entry independently and in order: scanning a + b is scanning a, then b |
| LibProofs.DisconnectAbsent | src/lib.ts:58-79 | disconnecting an id that sits in no room changes nothing and emits nothing |
| LibProofs.DisconnectAt | src/lib.ts:58-79 | under I3, only the one room holding the id changes, by the recovery rule, and the only event is that room's notice |
| LibProofs.DisconnectPromotes | src/lib.ts:59-65 | when `p1` leaves a paired room, the room stays in place with `p1` the old `p2`, `p2` empty and available again, and exactly one `disconnected` goes to the old `p2` |
| LibProofs.DisconnectDeletesSole | src/lib.ts:66-67 | when the sole occupant `p1` leaves, its entry is removed and nothing is emitted |
| LibProofs.DisconnectClearsP2 | src/lib.ts:69-74 | when `p2` leaves, the room stays in place with `p1` unchanged, `p2` empty and available again, and exactly one `disconnected` goes to `p1` |
| LibProofs.DisconnectDeletesOrphan | src/lib.ts:75-76 | when `p2` leaves a room whose `p1` is empty, its entry is removed and nothing is emitted |
| LibProofs.DisconnectKeys | src/lib.ts:58-79 | a disconnect never introduces a key |
| LibProofs.DisconnectKeepsWellFormed | src/lib.ts:62-76 | `disconnect` preserves unique keys, and also I1, I2 and I4 |
| LibProofs.DisconnectKeepsAbsent | src/lib.ts:58-79 | a connection in no room is still in no room after any disconnect |
| LibProofs.DisconnectKeepsDistinct | src/lib.ts:58-79 | `disconnect` preserves I3, and the leaving id is in no room afterwards |
| RoomRegistry.Registry.constructor | src/index.ts:32 | the server starts with an empty registry, which satisfies I1 to I4 |
| RoomRegistry.Registry.Start | src/lib.ts:8-48 | the role, the new registry and the appended events are those of `AfterStart`; I1, I2 and I4 are kept, and I3 is kept when the caller was in no room and the id is fresh |
| RoomRegistry.Registry.Visit | src/lib.ts:59-78 | one iteration of the disconnect loop: the entry is set, deleted or left as the recovery rule says, and the notice is appended for an updated room |
| RoomRegistry.Registry.Disconnect | src/lib.ts:53-80 | the new registry and the appended events are those of `AfterDisconnect`; unique keys, I1 and I2 are kept |
| Relay.RelayTarget | src/index.ts:53-56 | no target when the sender is in no room; otherwise `Counterpart` (the `p1 ? p2id : p1id` choice of src/index.ts:55 and :66) of `getType`'s answer for the first room holding the sender, i.e. the opposite slot, which may be empty |
| Relay.IceRelay | src/index.ts:52-60 | the candidate is dropped exactly when there is no target; otherwise one `ice:reply` goes to the target with the unchanged candidate and `from` the sender |
| Relay.SdpRelay | src/index.ts:63-71 | same target and drop rule as ICE, emitting `sdp:reply` with the unchanged description and `from` the sender |
| Relay.Label | src/index.ts:75 | the label is `You: ` exactly when the claimed type is `p1`, and `Stranger: ` otherwise |
| Relay.ChatRelay | src/index.ts:74-77 | the text goes unchanged to the named room minus the sender, whatever the registry holds; the label is `You: ` exactly when the claimed type is `p1`, and `Stranger: ` for any other claimed type |
| Relay.ChatAsP2 | src/index.ts:75-76 | a line from a sender claiming `p2` goes to the room minus the sender labelled `Stranger: ` |
| Relay.RelayNeverToSender | src/index.ts:53-57 | under I3, signaling is never forwarded back to its sender |
| Relay.RelayPaired | src/index.ts:52-71 | in a paired room, ICE and SDP from each side reach exactly the other side, tagged with the sender |
| Relay.RelayWaitingDropped | src/index.ts:56 | the `p1` of a room still waiting for a partner has its ICE and SDP dropped |
| Relay.RelayAfterPartnerLeft | src/index.ts:52-60 | after the partner disconnects, the remaining `p1`'s signaling is dropped |
| Relay.RelayAfterCreatorLeft | src/index.ts:52-60 | after the creator disconnects, the promoted partner's signaling is dropped |
| Relay.OpenFirst | src/lib.ts:33-47 | the first connection to start on an empty registry creates room r as its `p1`, waiting, and learns r |
| Relay.PairedIce | src/index.ts:52-58 | in a one-room paired registry, `p2`'s candidate reaches `p1`, tagged with `p2` |
| Relay.PairUp | src/lib.ts:14-32 | a second connection joining a one-room registry becomes `p2` and both sides are introduced |
| Relay.CreatorLeaves | src/lib.ts:59-65 | the creator of a one-room paired registry leaving promotes the partner, who alone is told |
| Relay.Session | src/index.ts:40-77 | from an empty registry: x creates r, y joins and y's ICE reaches x, y's chat line as `p2` goes to r minus y labelled `Stranger: `, x leaves and y waits alone in r, z joins y there |

## Left out

- The Express app, CORS, `app.listen` and the construction of the
  Socket.IO server: process start-up and network I/O.
- The `onlineUsers` counter and its `online` broadcasts: display-only
  accounting that never touches the registry.
- Socket.IO delivery.
  - `socket.join` and room membership belong to the transport, so a room
    broadcast is recorded as a target `RoomExcept(roomId, sender)`.
  - Which connections that target reaches is not modelled.
- `uuidv4`: the fresh room id is a parameter of `start`.
  - `Start` follows `Map.set` even when that id collides with an existing key.
  - The lemmas about creating a room require the id to be new.
- SDP and ICE payloads are opaque strings, relayed unchanged.
- The `./types` module is not part of this model.
  - `Room` and the `getType` result are reconstructed from their uses.
  - A slot `{ id: null }` is modelled as `None`.
- The `start` callback is the role that `Start` returns.
  - It is not an entry of the event log.
  - Its ordering relative to `rooms.set` and the emits is not modelled.
- Calling `start` again from a connection that already waits or is
  paired is not guarded by the code. It can seat one connection in two
  rooms. I3 is proved only for a caller that occupies no slot.
- Aliasing between room objects is not modelled. `handleDisconnect`
  mutates the stored room object and then sets it back under the same
  key. `handleStart` spreads the old room into a new one, which shares
  the `p1` object. Rooms here are values, and neither object is reachable
  from anywhere else, so the result is the same.
- `RoomRegistry.Registry.Disconnect`: does not state in its own contract
  that I3 is kept. That is `LibProofs.DisconnectKeepsDistinct`, about the
  function the method is proved equal to.
- `RoomRegistry.Registry.Disconnect`: loops over a snapshot of the
  entries rather than the live `Map` iterator. Under JavaScript `Map`
  iteration the two coincide, because the loop only rewrites or deletes
  the entry it is visiting.
