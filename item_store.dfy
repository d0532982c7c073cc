/**
 * The process-wide item store: the dictionary from id to item, kept in
 * insertion order, and the id counter that starts at 1. Each request
 * handler is one operation on it: Create, Get, Update, Delete, List.
 */
module InMemoryStore {
  import opened ItemModel
  import opened TextMatch
  import opened Listing
  import opened ItemTable

  datatype StoreError = NotFound

  class ItemStore {
    /** The dictionary from id to item. */
    var db: map<int, Item>
    /** The keys of `db` in insertion order, the dictionary's iteration order. */
    var order: seq<int>
    /** The value the id counter hands out next. */
    var nextId: int
    /** Every id the counter has handed out so far. */
    ghost var issued: set<int>

    ghost predicate Valid()
      reads this
      ensures Valid() ==> nextId !in issued && forall k :: k in db ==> k in issued
    {
      && TableInv(db, order, nextId)
      && (forall k :: k in issued <==> 1 <= k < nextId)
    }

    /** The table's entries in iteration order, each carrying its key as id. */
    function Contents(): (s: seq<ItemOut>)
      reads this
      requires Valid()
      ensures |s| == |db|
      ensures AscendingIds(s)
      ensures forall x :: x in s ==> x.id in db && db[x.id] == x.item && x.id in issued
    {
      EntriesAscending(db, order, nextId);
      EntriesCount(db, order);
      EntriesOf(db, order)
    }

    /** An empty table whose counter will hand out 1 first. */
    constructor ()
      ensures Valid()
      ensures db == map[] && order == [] && nextId == 1 && issued == {}
      ensures Contents() == []
    {
      db, order, nextId := map[], [], 1;
      issued := {};
      EmptyTable();
    }

    /** Looks up an id; fails with NotFound when no item is stored under it. */
    function Get(id: int): (r: Result<ItemOut, StoreError>)
      reads this
      ensures r.Err? <==> id !in db
      ensures r.Err? ==> r.error == NotFound
      ensures r.Ok? ==> r.value.id == id && r.value.item == db[id]
    {
      if id !in db then Err(NotFound) else Ok(ItemOut(id, db[id]))
    }

    /**
     * Draws the next id from the counter and stores the item under it. The
     * id was never handed out before, so it is not reused after a delete.
     */
    method Create(item: Item) returns (out: ItemOut)
      requires Valid() && ValidItem(item)
      modifies this
      ensures Valid()
      ensures out == ItemOut(old(nextId), item)
      ensures out.id !in old(issued) && issued == old(issued) + {out.id}
      ensures forall k :: k in old(db) ==> k < out.id
      ensures nextId == old(nextId) + 1
      ensures db == old(db)[out.id := item] && |db| == |old(db)| + 1
      ensures order == old(order) + [out.id]
      ensures Contents() == old(Contents()) + [out]
      ensures Get(out.id) == Ok(out)
    {
      ghost var before := Contents();
      CreateStep(db, order, nextId, item);
      IssueNext(issued, nextId);
      var newId := nextId;
      db, order, nextId := db[newId := item], order + [newId], nextId + 1;
      issued := issued + {newId};
      out := ItemOut(newId, item);
      assert TableInv(db, order, nextId);
      assert Valid();
      assert Contents() == before + [out];
    }

    /**
     * Replaces the whole record under an existing id, which keeps its place
     * in the order; fails with NotFound, changing nothing, when it is absent.
     */
    method Update(id: int, item: Item) returns (r: Result<ItemOut, StoreError>)
      requires Valid() && ValidItem(item)
      modifies this
      ensures Valid()
      ensures order == old(order) && nextId == old(nextId) && issued == old(issued)
      ensures r.Err? <==> id !in old(db)
      ensures id !in old(db) ==> r == Err(NotFound) && db == old(db)
      ensures id in old(db) ==> r == Ok(ItemOut(id, item)) && db == old(db)[id := item]
      ensures id in old(db) ==> Contents() == Replace(old(Contents()), id, item)
      ensures id in old(db) ==> Get(id) == r
    {
      if id !in db {
        return Err(NotFound);
      }
      UpdateStep(db, order, nextId, id, item);
      db := db[id := item];
      r := Ok(ItemOut(id, item));
    }

    /**
     * Removes the item under an existing id, keeping the other entries and
     * their order; fails with NotFound, changing nothing, when it is absent.
     * Afterwards a lookup of the id fails.
     */
    method Delete(id: int) returns (r: Result<(), StoreError>)
      requires Valid()
      modifies this
      ensures Valid()
      ensures nextId == old(nextId) && issued == old(issued)
      ensures r.Err? <==> id !in old(db)
      ensures id !in old(db) ==> r == Err(NotFound) && db == old(db) && order == old(order)
      ensures id in old(db) ==> db == old(db) - {id} && |db| == |old(db)| - 1
      ensures id in old(db) ==> order == RemoveKey(old(order), id)
      ensures Contents() == DropId(old(Contents()), id)
      ensures Get(id) == Err(NotFound)
    {
      ghost var before := Contents();
      if id !in db {
        DropAbsent(before, id);
        return Err(NotFound);
      }
      DeleteStep(db, order, nextId, id);
      db, order := db - {id}, RemoveKey(order, id);
      r := Ok(());
      assert TableInv(db, order, nextId);
      assert Valid();
      assert Contents() == DropId(before, id);
    }

    /**
     * The page `[skip, skip + limit)` of the entries, in insertion order,
     * whose name contains `q` ignoring case (all entries when `q` is absent).
     */
    function List(q: Option<string>, skip: int, limit: int): (r: seq<ItemOut>)
      reads this
      requires Valid() && InBounds(skip, limit)
      ensures var f := Filter(Contents(), q);
        && |r| <= limit
        && (skip >= |f| ==> r == [])
        && (skip < |f| ==> |r| == Min(limit, |f| - skip))
        && (forall k :: 0 <= k < |r| ==> r[k] == f[skip + k])
      ensures forall x :: x in r ==> Matches(x, q) && Get(x.id) == Ok(x)
      ensures AscendingIds(r)
    {
      var f := Filter(Contents(), q);
      FilterAscending(Contents(), q);
      WindowOfAscending(f, skip, limit);
      Window(f, skip, limit)
    }
  }

  /** Handing out the counter's value extends the issued ids `[1, next)` to `[1, next + 1)`. */
  lemma IssueNext(issued: set<int>, nextId: int)
    requires nextId >= 1
    requires forall k :: k in issued <==> 1 <= k < nextId
    ensures nextId !in issued
    ensures forall k :: k in issued + {nextId} <==> 1 <= k < nextId + 1
  {
    forall k ensures k in issued + {nextId} <==> 1 <= k < nextId + 1 {
      assert k in issued <==> 1 <= k < nextId;
    }
  }
}
