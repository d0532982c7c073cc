/**
 * The two stages of the listing endpoint, on values: the filter by name
 * (the comprehension over the table's entries) and the offset/limit window
 * (the slice `items[skip:skip + limit]`).
 */
module Listing {
  import opened ItemModel
  import opened TextMatch

  function Min(a: int, b: int): int {
    if a <= b then a else b
  }

  /** An entry passes the filter when there is no query, or when the query occurs in its name ignoring case. */
  predicate Matches(x: ItemOut, q: Option<string>)
    ensures Matches(x, q) ==> q.None? || exists i :: OccursAt(Lower(q.value), Lower(x.item.nombre), i)
    ensures (q.None? || exists i :: OccursAt(Lower(q.value), Lower(x.item.nombre), i)) ==> Matches(x, q)
  {
    match q
    case None => true
    case Some(v) =>
      var b := ContainsIgnoringCase(v, x.item.nombre);
      assert b ==> exists i :: OccursAt(Lower(v), Lower(x.item.nombre), i);
      b
  }

  /** The entries of `s` that pass the filter, in their order in `s`. */
  function Filter(s: seq<ItemOut>, q: Option<string>): (r: seq<ItemOut>)
    ensures |r| <= |s|
    ensures forall x :: x in r ==> x in s && Matches(x, q)
    decreases |s|
  {
    if s == [] then []
    else if Matches(s[0], q) then [s[0]] + Filter(s[1..], q)
    else Filter(s[1..], q)
  }

  /** Every entry of `s` that passes the filter is kept. */
  lemma {:induction false} FilterKeepsMatches(s: seq<ItemOut>, q: Option<string>, x: ItemOut)
    requires x in s && Matches(x, q)
    ensures x in Filter(s, q)
    decreases |s|
  {
    if s[0] != x {
      assert x in s[1..];
      FilterKeepsMatches(s[1..], q, x);
    }
  }

  /** Without a query, the filter keeps every entry, in order. */
  lemma {:induction false} FilterWithoutQuery(s: seq<ItemOut>)
    ensures Filter(s, None) == s
    decreases |s|
  {
    if s != [] {
      FilterWithoutQuery(s[1..]);
      assert s == [s[0]] + s[1..];
    }
  }

  /** The empty query matches every name, so it also keeps every entry. */
  lemma {:induction false} FilterEmptyQuery(s: seq<ItemOut>)
    ensures Filter(s, Some("")) == s
    decreases |s|
  {
    if s != [] {
      EmptyOccurs(Lower(s[0].item.nombre));
      FilterEmptyQuery(s[1..]);
      assert s == [s[0]] + s[1..];
    }
  }

  /** The values strictly increase along `s`. */
  ghost predicate Increasing(s: seq<int>) {
    forall i, j :: 0 <= i < j < |s| ==> s[i] < s[j]
  }

  /** The ids of the entries, in order. */
  function Ids(s: seq<ItemOut>): (r: seq<int>)
    ensures |r| == |s|
    ensures forall i :: 0 <= i < |s| ==> r[i] == s[i].id
  {
    seq(|s|, i requires 0 <= i < |s| => s[i].id)
  }

  /** Ids strictly increase along `s`. */
  ghost predicate AscendingIds(s: seq<ItemOut>) {
    Increasing(Ids(s))
  }

  lemma AscendingIdsCons(x: ItemOut, t: seq<ItemOut>)
    requires AscendingIds(t)
    requires forall y :: y in t ==> x.id < y.id
    ensures AscendingIds([x] + t)
  {
  }

  /** Filtering keeps ascending order of ids: the output is in insertion order. */
  lemma {:induction false} FilterAscending(s: seq<ItemOut>, q: Option<string>)
    requires AscendingIds(s)
    ensures AscendingIds(Filter(s, q))
    decreases |s|
  {
    if s != [] {
      var t := s[1..];
      assert AscendingIds(t) by {
        forall i, j | 0 <= i < j < |t| ensures t[i].id < t[j].id {
          assert t[i] == s[i + 1] && t[j] == s[j + 1];
        }
      }
      FilterAscending(t, q);
      if Matches(s[0], q) {
        forall y | y in Filter(t, q) ensures s[0].id < y.id {
          var k :| 0 <= k < |t| && t[k] == y;
          assert y == s[k + 1];
        }
        AscendingIdsCons(s[0], Filter(t, q));
      }
    }
  }

  /**
   * The slice `s[lo:hi]` for non-negative bounds: both bounds are clamped
   * to the length, and a window that starts at or past its end is empty.
   */
  function Slice<T>(s: seq<T>, lo: nat, hi: nat): (r: seq<T>)
    ensures |r| == if lo < hi && lo < |s| then Min(hi, |s|) - lo else 0
    ensures forall k :: 0 <= k < |r| ==> r[k] == s[lo + k]
  {
    var a, b := Min(lo, |s|), Min(hi, |s|);
    if a < b then s[a..b] else []
  }

  /** The page `[skip, skip + limit)` of `s`. */
  function Window<T>(s: seq<T>, skip: nat, limit: nat): (r: seq<T>)
    ensures |r| <= limit
    ensures skip >= |s| ==> r == []
    ensures skip < |s| ==> |r| == Min(limit, |s| - skip)
    ensures forall k :: 0 <= k < |r| ==> r[k] == s[skip + k]
  {
    Slice(s, skip, skip + limit)
  }

  /** A page holds entries of `s` only, and keeps their ids ascending. */
  lemma WindowOfAscending(s: seq<ItemOut>, skip: nat, limit: nat)
    ensures forall x :: x in Window(s, skip, limit) ==> x in s
    ensures AscendingIds(s) ==> AscendingIds(Window(s, skip, limit))
  {
    var w := Window(s, skip, limit);
    forall x | x in w ensures x in s {
      var k :| 0 <= k < |w| && w[k] == x;
      assert x == s[skip + k];
    }
  }

  /** Two consecutive pages together are the page that spans both. */
  lemma WindowsTile<T>(s: seq<T>, skip: nat, a: nat, b: nat)
    ensures Window(s, skip, a) + Window(s, skip + a, b) == Window(s, skip, a + b)
  {
  }
}
