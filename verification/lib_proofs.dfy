/**
 * Properties of the matchmaking rules: what `start` and `disconnect` do
 * to the one room they touch, that nothing else changes, and that both
 * keep the registry's invariants.
 */
module LibProofs {
  import opened Wrappers
  import opened Types
  import opened RoomTable
  import opened Lib

  // ---------------------------------------------------------------------
  // Search results

  /** The first eligible entry is unique. */
  lemma FirstEligibleUnique(es: seq<Entry>, c: ConnId, i: int, j: int)
    requires FirstEligible(es, c, i) && FirstEligible(es, c, j)
    ensures i == j
  {
  }

  /** `findAvailableRoom` returns exactly the first eligible entry. */
  lemma FindAvailableAt(es: seq<Entry>, c: ConnId, i: nat)
    requires FirstEligible(es, c, i)
    ensures FindAvailableRoom(es, c) == Some(es[i])
  {
    var r := FindAvailableRoom(es, c);
    assert r.Some?;
    var k :| 0 <= k < |es| && es[k] == r.value && FirstEligible(es, c, k);
    FirstEligibleUnique(es, c, i, k);
  }

  /**
   * When no id sits in two slots, the room holding id is the only one,
   * so `getType` reports that room's opposite slot, and the reported
   * counterpart is never id itself.
   */
  lemma GetTypeUnique(es: seq<Entry>, id: ConnId, i: nat)
    requires DistinctOccupants(es) && i < |es| && Occupies(es[i].room, id)
    ensures GetType(id, es) == Some(Opposite(es[i].room, id))
    ensures match Opposite(es[i].room, id)
              case AsP1(x) => x != Some(id)
              case AsP2(x) => x != Some(id)
  {
    var r := GetType(id, es);
    assert !Absent(es, id);
    var k :| FirstHolding(es, id, k) && r.value == Opposite(es[k].room, id);
  }

  // ---------------------------------------------------------------------
  // handleStart

  /**
   * Joining: the first eligible room gets caller as `p2` and stops being
   * available, in place; its key and `p1` stay; `p1` is not caller; both
   * sides learn each other's id and caller learns the room id.
   */
  lemma StartJoins(es: seq<Entry>, caller: ConnId, freshId: RoomId, i: nat)
    requires UniqueKeys(es) && P1Occupied(es) && FirstEligible(es, caller, i)
    ensures var o := AfterStart(es, caller, freshId);
            var p1 := es[i].room.p1.value;
            && p1 != caller
            && o.role == P2
            && o.rooms == es[..i] + [Entry(es[i].key, es[i].room.(isAvailable := false, p2 := Some(caller)))] + es[i + 1..]
            && o.emits == [Emit(Conn(p1), RemoteSocket(caller)), Emit(Conn(caller), RemoteSocket(p1)), Emit(Conn(caller), RoomIdMsg(es[i].key))]
  {
    FindAvailableAt(es, caller, i);
    SetAt(es, i, es[i].room.(isAvailable := false, p2 := Some(caller)));
  }

  /**
   * Creating: when no room is eligible and the generated id is new, a
   * room with caller as its only occupant is appended, caller is `p1` and
   * learns the new room id, and the existing entries are untouched.
   */
  lemma StartCreates(es: seq<Entry>, caller: ConnId, freshId: RoomId)
    requires P1Occupied(es) && freshId !in KeySet(es)
    requires forall i :: 0 <= i < |es| ==> !Eligible(es[i].room, caller)
    ensures var o := AfterStart(es, caller, freshId);
            && o.role == P1
            && o.rooms == es + [Entry(freshId, Room(freshId, Some(caller), None, true))]
            && o.emits == [Emit(Conn(caller), RoomIdMsg(freshId))]
  {
    SetAppends(es, freshId, Room(freshId, Some(caller), None, true));
  }

  /** `start` keeps unique keys, occupied `p1`s and the availability flag in step with `p2`. */
  lemma StartKeepsWellFormed(es: seq<Entry>, caller: ConnId, freshId: RoomId)
    requires WellFormed(es)
    ensures WellFormed(AfterStart(es, caller, freshId).rooms)
  {
    var f := FindAvailableRoom(es, caller);
    var k, v;
    if f.Some? {
      k, v := f.value.key, f.value.room.(isAvailable := false, p2 := Some(caller));
      var i :| 0 <= i < |es| && es[i] == f.value && FirstEligible(es, caller, i);
      assert RoomOk(es[i]);
    } else {
      k, v := freshId, Room(freshId, Some(caller), None, true);
    }
    var rooms := Set(es, k, v);
    assert rooms == AfterStart(es, caller, freshId).rooms;
    SetDeleteUnique(es, k, v);
    SetMembers(es, k, v);
    forall j | 0 <= j < |rooms| ensures RoomOk(rooms[j]) {
      assert rooms[j] in rooms;
      if rooms[j] != Entry(k, v) {
        var m :| 0 <= m < |es| && es[m] == rooms[j];
        assert RoomOk(es[m]);
      }
    }
  }

  /** Replacing entry i by one whose occupants were i's or nobody's keeps ids distinct. */
  lemma DistinctReplace(es: seq<Entry>, i: nat, e: Entry)
    requires DistinctOccupants(es) && i < |es| && SlotsDiffer(e.room)
    requires forall c :: Occupies(e.room, c) ==> Occupies(es[i].room, c) || Absent(es, c)
    ensures DistinctOccupants(es[..i] + [e] + es[i + 1..])
  {
    var s := es[..i] + [e] + es[i + 1..];
    assert forall j :: 0 <= j < |s| && j != i ==> s[j] == es[j];
    forall j, k, c | 0 <= j < k < |s| && Occupies(s[j].room, c) ensures !Occupies(s[k].room, c) {
    }
  }

  /** Appending a room whose occupants sit nowhere else keeps ids distinct. */
  lemma DistinctSnoc(es: seq<Entry>, e: Entry)
    requires DistinctOccupants(es) && SlotsDiffer(e.room)
    requires forall c :: Occupies(e.room, c) ==> Absent(es, c)
    ensures DistinctOccupants(es + [e])
  {
    var s := es + [e];
    assert forall j :: 0 <= j < |es| ==> s[j] == es[j];
    forall j, k, c | 0 <= j < k < |s| && Occupies(s[j].room, c) ensures !Occupies(s[k].room, c) {
    }
  }

  /**
   * A caller that sits in no room and calls `start` ends up in exactly one
   * slot, and no id sits in two slots afterwards (I3).
   */
  lemma StartKeepsDistinct(es: seq<Entry>, caller: ConnId, freshId: RoomId)
    requires WellFormed(es) && DistinctOccupants(es) && Absent(es, caller) && freshId !in KeySet(es)
    ensures var rooms := AfterStart(es, caller, freshId).rooms;
            DistinctOccupants(rooms) && !Absent(rooms, caller)
  {
    var rooms := AfterStart(es, caller, freshId).rooms;
    if i :| FirstEligible(es, caller, i) {
      StartJoins(es, caller, freshId, i);
      assert RoomOk(es[i]);
      var e := Entry(es[i].key, es[i].room.(isAvailable := false, p2 := Some(caller)));
      DistinctReplace(es, i, e);
      assert rooms[i] == e;
    } else {
      StartCreates(es, caller, freshId);
      var e := Entry(freshId, Room(freshId, Some(caller), None, true));
      DistinctSnoc(es, e);
      assert rooms[|es|] == e;
    }
  }

  // ---------------------------------------------------------------------
  // handleDisconnect

  /** Disconnecting runs over the entries one by one: the scan of a + b is the scan of a, then of b. */
  lemma {:induction false} DisconnectAppend(a: seq<Entry>, b: seq<Entry>, id: ConnId)
    ensures AfterDisconnect(a + b, id) ==
            Transition(AfterDisconnect(a, id).rooms + AfterDisconnect(b, id).rooms,
                       AfterDisconnect(a, id).emits + AfterDisconnect(b, id).emits)
  {
    if b == [] {
      assert a + b == a;
    } else {
      var b' := b[..|b| - 1];
      assert (a + b)[..|a + b| - 1] == a + b';
      assert (a + b)[|a + b| - 1] == b[|b| - 1];
      DisconnectAppend(a, b', id);
    }
  }

  /** One more step of the disconnect scan: entry i goes through the recovery rule. */
  lemma DisconnectStep(es: seq<Entry>, i: nat, id: ConnId)
    requires i < |es|
    ensures var t := AfterDisconnect(es[..i], id);
            AfterDisconnect(es[..i + 1], id) ==
              match Leave(es[i].room, id)
              case Untouched => Transition(t.rooms + [es[i]], t.emits)
              case Updated(r, n) => Transition(t.rooms + [Entry(es[i].key, r)], t.emits + [Emit(Conn(n), Disconnected)])
              case Deleted => t
  {
    assert es[..i + 1][..i] == es[..i];
  }

  /**
   * One step of the disconnect scan over entry i, stated on the live map
   * (the rewritten prefix followed by the unvisited entries) and on the
   * log: rewriting entry i in place, deleting it or skipping it leaves the
   * map and the log as the disconnect rule does after i + 1 entries.
   */
  lemma ScanStep(es: seq<Entry>, i: nat, id: ConnId, sent: seq<Emit>)
    requires UniqueKeys(es) && i < |es|
    ensures var done, next := AfterDisconnect(es[..i], id), AfterDisconnect(es[..i + 1], id);
            match Leave(es[i].room, id)
            case Untouched =>
              done.rooms + es[i..] == next.rooms + es[i + 1..] && sent + done.emits == sent + next.emits
            case Updated(r, n) =>
              && Set(done.rooms + es[i..], es[i].key, r) == next.rooms + es[i + 1..]
              && sent + done.emits + [Emit(Conn(n), Disconnected)] == sent + next.emits
            case Deleted =>
              Delete(done.rooms + es[i..], es[i].key) == next.rooms + es[i + 1..] && sent + done.emits == sent + next.emits
  {
    var done := AfterDisconnect(es[..i], id);
    DisconnectStep(es, i, id);
    KeyNotBefore(es, i);
    DisconnectKeys(es[..i], id);
    assert done.rooms + es[i..] == done.rooms + [es[i]] + es[i + 1..];
    match Leave(es[i].room, id)
    case Untouched =>
    case Updated(r, n) =>
      SetSplit(done.rooms, es[i], es[i + 1..], r);
      LogAppend(sent, done.emits, [Emit(Conn(n), Disconnected)]);
    case Deleted =>
      DeleteSplit(done.rooms, es[i], es[i + 1..]);
  }

  /** A finished scan has visited every entry. */
  lemma ScanDone(es: seq<Entry>, id: ConnId)
    ensures AfterDisconnect(es[..|es|], id).rooms + es[|es|..] == AfterDisconnect(es, id).rooms
    ensures AfterDisconnect(es[..|es|], id).emits == AfterDisconnect(es, id).emits
  {
    assert es[..|es|] == es;
    assert es[|es|..] == [];
  }

  /** Appending to a log in two steps or in one gives the same log. */
  lemma LogAppend(log: seq<Emit>, a: seq<Emit>, b: seq<Emit>)
    ensures log + a + b == log + (a + b)
  {
  }

  /** Disconnecting an id that sits in no room changes nothing and emits nothing. */
  lemma {:induction false} DisconnectAbsent(es: seq<Entry>, id: ConnId)
    requires Absent(es, id)
    ensures AfterDisconnect(es, id) == Transition(es, [])
  {
    if es != [] {
      var init := es[..|es| - 1];
      DisconnectAbsent(init, id);
      assert init + [es[|es| - 1]] == es;
    }
  }

  /**
   * When no id sits in two slots, disconnecting id touches only the room
   * that holds it: the entries before and after it are kept as they are.
   */
  lemma DisconnectAt(es: seq<Entry>, id: ConnId, i: nat)
    requires DistinctOccupants(es) && i < |es| && Occupies(es[i].room, id)
    ensures AfterDisconnect(es, id) ==
            Transition(es[..i] + AfterDisconnect([es[i]], id).rooms + es[i + 1..],
                       AfterDisconnect([es[i]], id).emits)
  {
    assert es == es[..i] + [es[i]] + es[i + 1..];
    assert Absent(es[..i], id) by {
      forall j | 0 <= j < i ensures !Occupies(es[..i][j].room, id) {
        assert es[..i][j] == es[j];
      }
    }
    var tail := es[i + 1..];
    assert Absent(tail, id) by {
      forall j | 0 <= j < |tail| ensures !Occupies(tail[j].room, id) {
        assert tail[j] == es[i + 1 + j];
      }
    }
    DisconnectAbsent(es[..i], id);
    DisconnectAbsent(es[i + 1..], id);
    DisconnectAppend(es[..i] + [es[i]], es[i + 1..], id);
    DisconnectAppend(es[..i], [es[i]], id);
  }

  /** P1 leaves a paired room: the partner is promoted to `p1`, `p2` empties, the room reopens, and the partner alone is told. */
  lemma DisconnectPromotes(es: seq<Entry>, i: nat, a: ConnId, b: ConnId)
    requires DistinctOccupants(es) && i < |es|
    requires es[i].room.p1 == Some(a) && es[i].room.p2 == Some(b)
    ensures AfterDisconnect(es, a) ==
            Transition(es[..i] + [Entry(es[i].key, es[i].room.(p1 := Some(b), p2 := None, isAvailable := true))] + es[i + 1..],
                       [Emit(Conn(b), Disconnected)])
  {
    DisconnectAt(es, a, i);
    assert [es[i]][..0] == [];
  }

  /** The sole occupant `p1` leaves: the room is deleted and nobody is told. */
  lemma DisconnectDeletesSole(es: seq<Entry>, i: nat, a: ConnId)
    requires DistinctOccupants(es) && i < |es|
    requires es[i].room.p1 == Some(a) && es[i].room.p2 == None
    ensures AfterDisconnect(es, a) == Transition(es[..i] + es[i + 1..], [])
  {
    DisconnectAt(es, a, i);
    assert [es[i]][..0] == [];
  }

  /** P2 leaves a paired room: `p2` empties, `p1` stays, the room reopens, and `p1` alone is told. */
  lemma DisconnectClearsP2(es: seq<Entry>, i: nat, a: ConnId, b: ConnId)
    requires DistinctOccupants(es) && i < |es|
    requires es[i].room.p1 == Some(a) && es[i].room.p2 == Some(b)
    ensures AfterDisconnect(es, b) ==
            Transition(es[..i] + [Entry(es[i].key, es[i].room.(p2 := None, isAvailable := true))] + es[i + 1..],
                       [Emit(Conn(a), Disconnected)])
  {
    DisconnectAt(es, b, i);
    assert [es[i]][..0] == [];
  }

  /** P2 leaves a room whose `p1` is already empty: the room is deleted and nobody is told. */
  lemma DisconnectDeletesOrphan(es: seq<Entry>, i: nat, b: ConnId)
    requires DistinctOccupants(es) && i < |es|
    requires es[i].room.p1 == None && es[i].room.p2 == Some(b)
    ensures AfterDisconnect(es, b) == Transition(es[..i] + es[i + 1..], [])
  {
    DisconnectAt(es, b, i);
    assert [es[i]][..0] == [];
  }

  /** Every key after a disconnect was a key before. */
  lemma {:induction false} DisconnectKeys(es: seq<Entry>, id: ConnId)
    ensures KeySet(AfterDisconnect(es, id).rooms) <= KeySet(es)
  {
    if es != [] {
      var init := es[..|es| - 1];
      DisconnectKeys(init, id);
      assert es == init + [es[|es| - 1]];
      assert KeySet(es) == KeySet(init) + {es[|es| - 1].key};
    }
  }

  /** Disconnecting keeps unique keys, occupied `p1`s and the availability flag in step with `p2`. */
  lemma {:induction false} DisconnectKeepsWellFormed(es: seq<Entry>, id: ConnId)
    ensures UniqueKeys(es) ==> UniqueKeys(AfterDisconnect(es, id).rooms)
    ensures WellFormed(es) ==> WellFormed(AfterDisconnect(es, id).rooms)
  {
    if es != [] {
      var init := es[..|es| - 1];
      var e := es[|es| - 1];
      var t := AfterDisconnect(init, id);
      DisconnectKeepsWellFormed(init, id);
      assert UniqueKeys(es) ==> UniqueKeys(init) && e.key !in KeySet(init) by {
        if UniqueKeys(es) {
          KeyNotBefore(es, |es| - 1);
        }
      }
      DisconnectKeys(init, id);
      var rooms := AfterDisconnect(es, id).rooms;
      if UniqueKeys(es) && rooms != t.rooms {
        SnocUnique(t.rooms, rooms[|rooms| - 1]);
        assert t.rooms + [rooms[|rooms| - 1]] == rooms;
      }
      if WellFormed(es) {
        assert RoomOk(e);
        assert forall j :: 0 <= j < |t.rooms| ==> rooms[j] == t.rooms[j];
      }
    }
  }

  /** A connection that sits in no room before a disconnect sits in none after it. */
  lemma {:induction false} DisconnectKeepsAbsent(es: seq<Entry>, id: ConnId, c: ConnId)
    requires Absent(es, c)
    ensures Absent(AfterDisconnect(es, id).rooms, c)
  {
    if es != [] {
      var init := es[..|es| - 1];
      DisconnectKeepsAbsent(init, id, c);
      var rooms := AfterDisconnect(es, id).rooms;
      assert forall j :: 0 <= j < |AfterDisconnect(init, id).rooms| ==> rooms[j] == AfterDisconnect(init, id).rooms[j];
    }
  }

  /**
   * Disconnecting keeps every id in at most one slot (I3), and afterwards
   * the departed id sits in no room at all.
   */
  lemma {:induction false} DisconnectKeepsDistinct(es: seq<Entry>, id: ConnId)
    requires DistinctOccupants(es)
    ensures DistinctOccupants(AfterDisconnect(es, id).rooms)
    ensures Absent(AfterDisconnect(es, id).rooms, id)
  {
    if es != [] {
      var init := es[..|es| - 1];
      var e := es[|es| - 1];
      assert es == init + [e];
      assert DistinctOccupants(init) by {
        assert forall j :: 0 <= j < |init| ==> init[j] == es[j];
      }
      DisconnectKeepsDistinct(init, id);
      var t := AfterDisconnect(init, id);
      var rooms := AfterDisconnect(es, id).rooms;
      assert SlotsDiffer(e.room);
      if rooms != t.rooms {
        var last := rooms[|rooms| - 1];
        assert rooms == t.rooms + [last];
        forall c | Occupies(last.room, c) ensures Absent(t.rooms, c) {
          assert Occupies(e.room, c);
          assert Absent(init, c) by {
            forall j | 0 <= j < |init| ensures !Occupies(init[j].room, c) {
              assert init[j] == es[j];
            }
          }
          DisconnectKeepsAbsent(init, id, c);
        }
        DistinctSnoc(t.rooms, last);
      }
    }
  }
}
