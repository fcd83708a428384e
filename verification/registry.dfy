/**
 * The server's room registry and the log of events it sends, updated in
 * place by the `start` and `disconnect` handlers.
 */
module RoomRegistry {
  import opened Wrappers
  import opened Types
  import opened RoomTable
  import opened Lib
  import opened LibProofs

  class Registry {
    /** The `rooms` map, as its entries in insertion order. */
    var rooms: seq<Entry>
    /** Every event emitted so far, oldest first. */
    var outbox: seq<Emit>

    /** The map's own invariant: no key twice. */
    ghost predicate Valid()
      reads this
    {
      UniqueKeys(rooms)
    }

    /** The server's invariants on stored rooms: I1, I2, and each key equal to its room's id. */
    ghost predicate Consistent()
      reads this
    {
      WellFormed(rooms)
    }

    /** The empty registry the server starts with. */
    constructor ()
      ensures Valid() && Consistent() && DistinctOccupants(rooms)
      ensures rooms == [] && outbox == []
    {
      rooms := [];
      outbox := [];
    }

    /**
     * `handleStart`: seat caller in the first available room whose `p1`
     * is not caller, or create a room under freshId (the `uuidv4()` value);
     * returns the role given to the callback.
     */
    method Start(caller: ConnId, freshId: RoomId) returns (role: Role)
      requires Consistent()
      modifies this
      ensures Valid() && Consistent()
      ensures var o := AfterStart(old(rooms), caller, freshId);
              role == o.role && rooms == o.rooms && outbox == old(outbox) + o.emits
      ensures old(DistinctOccupants(rooms)) && old(Absent(rooms, caller)) && freshId !in KeySet(old(rooms))
              ==> DistinctOccupants(rooms) && !Absent(rooms, caller)
    {
      ghost var before := rooms;
      var found := FindAvailableRoom(rooms, caller);
      match found {
        case Some(e) =>
          role := P2;
          var updated := e.room.(isAvailable := false, p2 := Some(caller));
          rooms := Set(rooms, e.key, updated);
          var p1 := updated.p1.value;
          outbox := outbox + [Emit(Conn(p1), RemoteSocket(caller)),
                              Emit(Conn(caller), RemoteSocket(p1)),
                              Emit(Conn(caller), RoomIdMsg(e.key))];
        case None =>
          var created := Room(freshId, Some(caller), None, true);
          rooms := Set(rooms, freshId, created);
          role := P1;
          outbox := outbox + [Emit(Conn(caller), RoomIdMsg(freshId))];
      }
      assert Valid() && Consistent() by {
        StartKeepsWellFormed(before, caller, freshId);
      }
      assert DistinctOccupants(before) && Absent(before, caller) && freshId !in KeySet(before)
             ==> DistinctOccupants(rooms) && !Absent(rooms, caller) by {
        if DistinctOccupants(before) && Absent(before, caller) && freshId !in KeySet(before) {
          StartKeepsDistinct(before, caller, freshId);
        }
      }
    }

    /**
     * One iteration of `handleDisconnect`'s loop: apply the recovery rule to
     * the room stored under e.key, notifying whoever remains in it.
     */
    method Visit(e: Entry, id: ConnId)
      modifies this
      ensures match Leave(e.room, id)
              case Untouched => rooms == old(rooms) && outbox == old(outbox)
              case Updated(r, n) =>
                rooms == Set(old(rooms), e.key, r) && outbox == old(outbox) + [Emit(Conn(n), Disconnected)]
              case Deleted => rooms == Delete(old(rooms), e.key) && outbox == old(outbox)
    {
      var roomId, room := e.key, e.room;
      if room.p1 == Some(id) {
        if room.p2.Some? {
          outbox := outbox + [Emit(Conn(room.p2.value), Disconnected)];
          room := room.(p1 := room.p2, p2 := None, isAvailable := true);
          rooms := Set(rooms, roomId, room);
        } else {
          rooms := Delete(rooms, roomId);
        }
      } else if room.p2 == Some(id) {
        if room.p1.Some? {
          outbox := outbox + [Emit(Conn(room.p1.value), Disconnected)];
          room := room.(p2 := None, isAvailable := true);
          rooms := Set(rooms, roomId, room);
        } else {
          rooms := Delete(rooms, roomId);
        }
      }
    }

    /**
     * `handleDisconnect`: scan every entry in insertion order and apply the
     * recovery rule to each room holding id, notifying whoever remains.
     * Entries not yet visited are never changed by earlier steps, so
     * scanning a snapshot visits the same entries as the live map.
     */
    method Disconnect(id: ConnId)
      requires Valid()
      modifies this
      ensures Valid()
      ensures rooms == AfterDisconnect(old(rooms), id).rooms
      ensures outbox == old(outbox) + AfterDisconnect(old(rooms), id).emits
      ensures old(Consistent()) ==> Consistent()
    {
      var es := rooms;
      ghost var sent := outbox;
      var i := 0;
      assert es[..0] == [];
      while i < |es|
        invariant 0 <= i <= |es|
        invariant rooms == AfterDisconnect(es[..i], id).rooms + es[i..]
        invariant outbox == sent + AfterDisconnect(es[..i], id).emits
      {
        ScanStep(es, i, id, sent);
        Visit(es[i], id);
        i := i + 1;
      }
      ScanDone(es, id);
      assert Valid() && (WellFormed(es) ==> Consistent()) by {
        DisconnectKeepsWellFormed(es, id);
      }
    }
  }
}
