/**
 * The in-memory table on values: a map from id to item, the ids in
 * insertion order (the iteration order of the dictionary), and the next
 * value of the id counter. The invariant and the effect of each change of
 * the table on its ordered view are proved here; the store class applies
 * them.
 */
module ItemTable {
  import opened ItemModel
  import opened Listing

  /**
   * The table invariant: the counter starts at 1 and is above every key;
   * the order lists exactly the keys, ascending; every stored item is valid.
   */
  ghost predicate TableInv(db: map<int, Item>, order: seq<int>, nextId: int)
    ensures TableInv(db, order, nextId) ==> nextId !in db && nextId !in order
  {
    && nextId >= 1
    && Increasing(order)
    && (forall k :: k in order <==> k in db)
    && (forall k :: k in db ==> 1 <= k < nextId)
    && (forall k :: k in db ==> ValidItem(db[k]))
  }

  /** The entries of the table in dictionary order, each tagged with its key. */
  function EntriesOf(db: map<int, Item>, order: seq<int>): (r: seq<ItemOut>)
    requires forall k :: k in order ==> k in db
    ensures |r| == |order|
    ensures forall i :: 0 <= i < |order| ==> r[i].id == order[i] && r[i].item == db[order[i]]
    decreases |order|
  {
    if order == [] then []
    else
      var k := order[0];
      assert k in order;
      [ItemOut(k, db[k])] + EntriesOf(db, order[1..])
  }

  /** The order with `id` taken out. */
  function RemoveKey(order: seq<int>, id: int): (r: seq<int>)
    ensures forall k :: k in r <==> k in order && k != id
    decreases |order|
  {
    if order == [] then []
    else if order[0] == id then RemoveKey(order[1..], id)
    else [order[0]] + RemoveKey(order[1..], id)
  }

  /** The entries with the one under `id` taken out. */
  function DropId(s: seq<ItemOut>, id: int): (r: seq<ItemOut>)
    ensures forall x :: x in r <==> x in s && x.id != id
    decreases |s|
  {
    if s == [] then []
    else if s[0].id == id then DropId(s[1..], id)
    else [s[0]] + DropId(s[1..], id)
  }

  /** The entries with the item under `id` replaced by `item`, in place. */
  function Replace(s: seq<ItemOut>, id: int, item: Item): (r: seq<ItemOut>)
    ensures |r| == |s|
    ensures forall i :: 0 <= i < |s| ==> r[i].id == s[i].id
    ensures forall i :: 0 <= i < |s| && s[i].id == id ==> r[i].item == item
    ensures forall i :: 0 <= i < |s| && s[i].id != id ==> r[i] == s[i]
    decreases |s|
  {
    if s == [] then []
    else [if s[0].id == id then ItemOut(id, item) else s[0]] + Replace(s[1..], id, item)
  }

  /** The empty table with a fresh counter satisfies the invariant. */
  lemma EmptyTable()
    ensures TableInv(map[], [], 1)
    ensures EntriesOf(map[], []) == []
  {
  }

  /** Under the invariant the entries come out in ascending id order, with ids below the counter. */
  lemma EntriesAscending(db: map<int, Item>, order: seq<int>, nextId: int)
    requires TableInv(db, order, nextId)
    ensures AscendingIds(EntriesOf(db, order))
    ensures forall x :: x in EntriesOf(db, order) ==> 1 <= x.id < nextId && x.id in db && db[x.id] == x.item
  {
    var e := EntriesOf(db, order);
    assert Ids(e) == order;
    forall x | x in e ensures 1 <= x.id < nextId && x.id in db && db[x.id] == x.item {
      var i :| 0 <= i < |e| && e[i] == x;
      assert x.id == order[i] && order[i] in order;
    }
  }

  /** Entries that only read keys the two maps agree on are the same. */
  lemma {:induction false} EntriesOfFrame(db: map<int, Item>, db': map<int, Item>, order: seq<int>)
    requires forall k :: k in order ==> k in db && k in db' && db[k] == db'[k]
    ensures EntriesOf(db, order) == EntriesOf(db', order)
  {
  }

  /**
   * Create: the counter's value becomes the new key, which no stored key
   * reaches; the entry is appended last and nothing else changes.
   */
  lemma CreateStep(db: map<int, Item>, order: seq<int>, nextId: int, item: Item)
    requires TableInv(db, order, nextId)
    requires ValidItem(item)
    ensures nextId !in db
    ensures TableInv(db[nextId := item], order + [nextId], nextId + 1)
    ensures |db[nextId := item]| == |db| + 1
    ensures EntriesOf(db[nextId := item], order + [nextId])
         == EntriesOf(db, order) + [ItemOut(nextId, item)]
  {
    var db', order' := db[nextId := item], order + [nextId];
    IncreasingAppend(order, nextId);
    forall k ensures k in order' <==> k in db' {
      assert k in order' <==> k in order || k == nextId;
    }
    forall k | k in db' ensures 1 <= k < nextId + 1 && ValidItem(db'[k]) {
      if k != nextId {
        assert k in db;
      }
    }
    assert db'.Keys == db.Keys + {nextId};
    CreateEntries(db, order, nextId, item);
  }

  /** Appending a value above every element keeps a sequence ascending. */
  lemma IncreasingAppend(s: seq<int>, n: int)
    requires Increasing(s)
    requires forall k :: k in s ==> k < n
    ensures Increasing(s + [n])
  {
    var t := s + [n];
    forall i, j | 0 <= i < j < |t| ensures t[i] < t[j] {
      assert t[i] == s[i] && s[i] in s;
    }
  }

  lemma CreateEntries(db: map<int, Item>, order: seq<int>, nextId: int, item: Item)
    requires TableInv(db, order, nextId)
    ensures EntriesOf(db[nextId := item], order + [nextId])
         == EntriesOf(db, order) + [ItemOut(nextId, item)]
  {
  }

  /**
   * Update: the record under an existing key is replaced; the key keeps its
   * place in the order and every other entry is unchanged.
   */
  lemma UpdateStep(db: map<int, Item>, order: seq<int>, nextId: int, id: int, item: Item)
    requires TableInv(db, order, nextId)
    requires id in db
    requires ValidItem(item)
    ensures TableInv(db[id := item], order, nextId)
    ensures |db[id := item]| == |db|
    ensures EntriesOf(db[id := item], order) == Replace(EntriesOf(db, order), id, item)
  {
  }

  /** Taking a key out of an ascending order keeps it ascending. */
  lemma {:induction false} RemoveKeyIncreasing(order: seq<int>, id: int)
    requires Increasing(order)
    ensures Increasing(RemoveKey(order, id))
    decreases |order|
  {
    if order != [] {
      var t := order[1..];
      assert Increasing(t) by {
        forall i, j | 0 <= i < j < |t| ensures t[i] < t[j] {
          assert t[i] == order[i + 1] && t[j] == order[j + 1];
        }
      }
      RemoveKeyIncreasing(t, id);
      if order[0] != id {
        var rt := RemoveKey(t, id);
        var r := [order[0]] + rt;
        forall i, j | 0 <= i < j < |r| ensures r[i] < r[j] {
          assert r[j] == rt[j - 1];
          assert rt[j - 1] in t;
          if i > 0 {
            assert r[i] == rt[i - 1];
          }
        }
      }
    }
  }

  /** The entries read along the shortened order are the old entries without `id`. */
  lemma {:induction false} EntriesOfRemoveKey(db: map<int, Item>, order: seq<int>, id: int)
    requires forall k :: k in order ==> k in db
    ensures EntriesOf(db - {id}, RemoveKey(order, id)) == DropId(EntriesOf(db, order), id)
    decreases |order|
  {
    if order != [] {
      var e := EntriesOf(db, order);
      EntriesOfRemoveKey(db, order[1..], id);
      assert e[1..] == EntriesOf(db, order[1..]);
      if order[0] != id {
        var rt := RemoveKey(order[1..], id);
        EntriesOfFrame(db - {id}, db, rt);
      }
    }
  }

  /**
   * Delete: exactly the given key leaves the map and the order; the other
   * entries keep their records and their relative order.
   */
  lemma DeleteStep(db: map<int, Item>, order: seq<int>, nextId: int, id: int)
    requires TableInv(db, order, nextId)
    requires id in db
    ensures TableInv(db - {id}, RemoveKey(order, id), nextId)
    ensures |db - {id}| == |db| - 1
    ensures EntriesOf(db - {id}, RemoveKey(order, id)) == DropId(EntriesOf(db, order), id)
  {
    RemoveKeyIncreasing(order, id);
    EntriesOfRemoveKey(db, order, id);
    assert (db - {id}).Keys == db.Keys - {id};
  }

  /** The number of entries is the number of keys. */
  lemma EntriesCount(db: map<int, Item>, order: seq<int>)
    requires forall k :: k in order <==> k in db
    requires Increasing(order)
    ensures |EntriesOf(db, order)| == |db|
  {
    DistinctCard(order);
    assert (set k | k in order) == db.Keys;
  }

  /** An ascending sequence has as many distinct elements as positions. */
  lemma {:induction false} DistinctCard(s: seq<int>)
    requires Increasing(s)
    ensures |set k | k in s| == |s|
    decreases |s|
  {
    if s != [] {
      var t := s[1..];
      assert Increasing(t) by {
        forall i, j | 0 <= i < j < |t| ensures t[i] < t[j] {
          assert t[i] == s[i + 1] && t[j] == s[j + 1];
        }
      }
      DistinctCard(t);
      assert s[0] !in t by {
        forall i | 0 <= i < |t| ensures t[i] != s[0] {
          assert t[i] == s[i + 1];
        }
      }
      assert (set k | k in s) == (set k | k in t) + {s[0]};
    }
  }

  /** Dropping an id that no entry carries changes nothing. */
  lemma {:induction false} DropAbsent(s: seq<ItemOut>, id: int)
    requires forall x :: x in s ==> x.id != id
    ensures DropId(s, id) == s
    decreases |s|
  {
    if s != [] {
      DropAbsent(s[1..], id);
      assert s == [s[0]] + s[1..];
    }
  }
}
