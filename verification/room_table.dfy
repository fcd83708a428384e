/**
 * A JavaScript `Map<string, Room>` as the sequence of its entries in
 * insertion order: `set` on a present key replaces that entry where it
 * stands, `set` on a new key appends, and `delete` removes the entry.
 */
module RoomTable {
  import opened Wrappers
  import opened Types

  /** The keys present in the table. */
  function KeySet(es: seq<Entry>): set<RoomId> {
    set e | e in es :: e.key
  }

  /** No key occurs twice, as in every JavaScript `Map`. */
  ghost predicate UniqueKeys(es: seq<Entry>) {
    forall i, j :: 0 <= i < j < |es| ==> es[i].key != es[j].key
  }

  /** `Map.prototype.get`. */
  function Lookup(es: seq<Entry>, k: RoomId): (r: Option<Room>)
    ensures r.Some? <==> k in KeySet(es)
  {
    if es == [] then None
    else
      KeySetCons(es);
      if es[0].key == k then Some(es[0].room) else Lookup(es[1..], k)
  }

  /** `Map.prototype.set`. */
  function Set(es: seq<Entry>, k: RoomId, v: Room): (r: seq<Entry>)
    ensures KeySet(r) == KeySet(es) + {k}
    ensures |r| == if k in KeySet(es) then |es| else |es| + 1
  {
    if es == [] then [Entry(k, v)]
    else
      KeySetCons(es);
      if es[0].key == k then [Entry(k, v)] + es[1..]
      else
        var r := [es[0]] + Set(es[1..], k, v);
        KeySetCons(r);
        r
  }

  /** `Map.prototype.delete`. */
  function Delete(es: seq<Entry>, k: RoomId): (r: seq<Entry>)
    ensures KeySet(r) <= KeySet(es)
    ensures |r| == if k in KeySet(es) then |es| - 1 else |es|
  {
    if es == [] then []
    else
      KeySetCons(es);
      if es[0].key == k then es[1..]
      else
        var r := [es[0]] + Delete(es[1..], k);
        KeySetCons(r);
        r
  }

  /** The keys of a non-empty table are its first key and the keys of the rest. */
  lemma KeySetCons(es: seq<Entry>)
    requires es != []
    ensures KeySet(es) == {es[0].key} + KeySet(es[1..])
  {
    assert es == [es[0]] + es[1..];
  }

  /** The tail of a table with unique keys has unique keys and lacks the head's key. */
  lemma UniqueTail(es: seq<Entry>)
    requires es != [] && UniqueKeys(es)
    ensures UniqueKeys(es[1..]) && es[0].key !in KeySet(es[1..])
  {
    forall x | x in es[1..] ensures x.key != es[0].key {
      var j :| 0 <= j < |es[1..]| && es[1..][j] == x;
      assert es[j + 1] == x;
    }
    forall i, j | 0 <= i < j < |es[1..]| ensures es[1..][i].key != es[1..][j].key {
      assert es[1..][i] == es[i + 1] && es[1..][j] == es[j + 1];
    }
  }

  /** Reading a key back after `set` gives the value set; other keys read as before. */
  lemma {:induction false} LookupSet(es: seq<Entry>, k: RoomId, v: Room, k': RoomId)
    ensures Lookup(Set(es, k, v), k') == if k' == k then Some(v) else Lookup(es, k')
  {
    if es != [] && es[0].key != k {
      LookupSet(es[1..], k, v, k');
      assert ([es[0]] + Set(es[1..], k, v))[1..] == Set(es[1..], k, v);
    }
  }

  /** Reading a key after `delete` finds nothing for that key, if keys are unique; other keys read as before. */
  lemma {:induction false} LookupDelete(es: seq<Entry>, k: RoomId, k': RoomId)
    requires UniqueKeys(es)
    ensures Lookup(Delete(es, k), k') == if k' == k then None else Lookup(es, k')
  {
    if es != [] {
      UniqueTail(es);
      if es[0].key != k {
        LookupDelete(es[1..], k, k');
        assert ([es[0]] + Delete(es[1..], k))[1..] == Delete(es[1..], k);
      }
    }
  }

  /** `set` and `delete` keep the keys unique. */
  lemma {:induction false} SetDeleteUnique(es: seq<Entry>, k: RoomId, v: Room)
    requires UniqueKeys(es)
    ensures UniqueKeys(Set(es, k, v)) && UniqueKeys(Delete(es, k))
  {
    if es != [] {
      UniqueTail(es);
      if es[0].key == k {
        ConsUnique(Entry(k, v), es[1..]);
        assert [Entry(k, v)] + es[1..] == Set(es, k, v);
      } else {
        SetDeleteUnique(es[1..], k, v);
        ConsUnique(es[0], Set(es[1..], k, v));
        ConsUnique(es[0], Delete(es[1..], k));
      }
    }
  }

  /** Prepending an entry whose key is new keeps the keys unique. */
  lemma ConsUnique(e: Entry, es: seq<Entry>)
    requires UniqueKeys(es) && e.key !in KeySet(es)
    ensures UniqueKeys([e] + es)
  {
    var s := [e] + es;
    forall i, j | 0 <= i < j < |s| ensures s[i].key != s[j].key {
      if i == 0 {
        assert s[j] == es[j - 1];
      } else {
        assert s[i] == es[i - 1] && s[j] == es[j - 1];
      }
    }
  }

  /** Regrouping a non-empty prefix as its head and its tail. */
  lemma ConsSplit(p: seq<Entry>, m: seq<Entry>, q: seq<Entry>)
    requires p != []
    ensures [p[0]] + (p[1..] + m + q) == p + m + q
  {
    assert p == [p[0]] + p[1..];
  }

  /** Regrouping a non-empty prefix as its head and its tail. */
  lemma ConsJoin(p: seq<Entry>, q: seq<Entry>)
    requires p != []
    ensures [p[0]] + (p[1..] + q) == p + q
  {
    assert p == [p[0]] + p[1..];
  }

  /** Setting a key that first occurs after the prefix p replaces that entry in place. */
  lemma {:induction false} SetSplit(p: seq<Entry>, e: Entry, q: seq<Entry>, v: Room)
    requires e.key !in KeySet(p)
    ensures Set(p + [e] + q, e.key, v) == p + [Entry(e.key, v)] + q
  {
    if p == [] {
      assert p + [e] + q == [e] + q;
    } else {
      var s := p + [e] + q;
      assert s[0] == p[0] && s[1..] == p[1..] + [e] + q;
      KeySetCons(p);
      SetSplit(p[1..], e, q, v);
      assert Set(s, e.key, v) == [p[0]] + (p[1..] + [Entry(e.key, v)] + q);
      ConsSplit(p, [Entry(e.key, v)], q);
    }
  }

  /** Deleting a key that first occurs after the prefix p removes exactly that entry. */
  lemma {:induction false} DeleteSplit(p: seq<Entry>, e: Entry, q: seq<Entry>)
    requires e.key !in KeySet(p)
    ensures Delete(p + [e] + q, e.key) == p + q
  {
    if p == [] {
      assert p + [e] + q == [e] + q;
    } else {
      var s := p + [e] + q;
      assert s[0] == p[0] && s[1..] == p[1..] + [e] + q;
      KeySetCons(p);
      DeleteSplit(p[1..], e, q);
      assert Delete(s, e.key) == [p[0]] + (p[1..] + q);
      ConsJoin(p, q);
    }
  }

  /** With unique keys, the i-th key does not occur before position i. */
  lemma KeyNotBefore(es: seq<Entry>, i: nat)
    requires UniqueKeys(es) && i < |es|
    ensures es[i].key !in KeySet(es[..i])
  {
    forall x | x in es[..i] ensures x.key != es[i].key {
      var j :| 0 <= j < i && es[..i][j] == x;
    }
  }

  /** With unique keys, `set` on the key of entry i rewrites entry i and nothing else. */
  lemma SetAt(es: seq<Entry>, i: nat, v: Room)
    requires UniqueKeys(es) && i < |es|
    ensures Set(es, es[i].key, v) == es[..i] + [Entry(es[i].key, v)] + es[i + 1..]
  {
    KeyNotBefore(es, i);
    assert es == es[..i] + [es[i]] + es[i + 1..];
    SetSplit(es[..i], es[i], es[i + 1..], v);
  }

  /** With unique keys, `delete` on the key of entry i removes entry i and nothing else. */
  lemma DeleteAt(es: seq<Entry>, i: nat)
    requires UniqueKeys(es) && i < |es|
    ensures Delete(es, es[i].key) == es[..i] + es[i + 1..]
  {
    KeyNotBefore(es, i);
    assert es == es[..i] + [es[i]] + es[i + 1..];
    DeleteSplit(es[..i], es[i], es[i + 1..]);
  }

  /** `set` on a key not yet present appends the new entry at the end. */
  lemma {:induction false} SetAppends(es: seq<Entry>, k: RoomId, v: Room)
    requires k !in KeySet(es)
    ensures Set(es, k, v) == es + [Entry(k, v)]
  {
    if es != [] {
      assert es[0] in es;
      assert KeySet(es[1..]) <= KeySet(es) by {
        forall x | x in es[1..] ensures x in es { }
      }
      SetAppends(es[1..], k, v);
      assert es == [es[0]] + es[1..];
    }
  }

  /** Appending an entry whose key is new keeps the keys unique. */
  lemma SnocUnique(es: seq<Entry>, e: Entry)
    requires UniqueKeys(es) && e.key !in KeySet(es)
    ensures UniqueKeys(es + [e])
  {
    var s := es + [e];
    forall i, j | 0 <= i < j < |s| ensures s[i].key != s[j].key {
      assert s[i] == es[i];
      if j < |es| {
        assert s[j] == es[j];
      } else {
        assert es[i] in es;
      }
    }
  }

  /** Every entry after `set` is the new one or was there before. */
  lemma {:induction false} SetMembers(es: seq<Entry>, k: RoomId, v: Room)
    ensures forall x :: x in Set(es, k, v) ==> x == Entry(k, v) || x in es
  {
    if es != [] && es[0].key != k {
      SetMembers(es[1..], k, v);
      forall x | x in Set(es, k, v) ensures x == Entry(k, v) || x in es {
        if x != es[0] {
          assert x in Set(es[1..], k, v);
        }
      }
    } else if es != [] {
      forall x | x in Set(es, k, v) ensures x == Entry(k, v) || x in es {
        if x != Entry(k, v) {
          assert x in es[1..];
        }
      }
    }
  }
}
