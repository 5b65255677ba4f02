/**
 * Cursor pagination over one collection (`_listDocuments`), generic in the
 * document type. A collection is a map from object ID to document; the order in
 * which Firestore returns the documents of a query before any sorting (the order
 * of the predicate field's index) is a parameter `scan`.
 */
module Paging {

  import opened Results

  type ObjectID = string

  /** How a collection's documents expose their orderedID and object ID, and which ones the query selects. */
  datatype Listing<!D> = Listing(orderedIDOf: D -> nat, objectIDOf: D -> ObjectID, matches: D -> bool)

  /** The paging part of a query: an optional cursor and an optional limit. */
  datatype PageRequest = PageRequest(afterID: Option<ObjectID>, limit: Option<nat>)

  /** The cursor in force: an empty `afterID` is falsy in JS and so means no cursor. */
  function CursorOf(afterID: Option<ObjectID>): (c: Option<ObjectID>)
    ensures afterID.Some? && afterID.value != "" ==> c == afterID
    ensures afterID.None? || afterID.value == "" ==> c.None?
  {
    if afterID.Some? && afterID.value != "" then afterID else None
  }

  /** `scan` lists every key of `store` exactly once. */
  ghost predicate ScanOrder<D>(store: map<ObjectID, D>, scan: seq<ObjectID>) {
    && (forall i, j :: 0 <= i < j < |scan| ==> scan[i] != scan[j])
    && (forall k :: k in store <==> k in scan)
  }

  /** Every document is stored under its own object ID. */
  ghost predicate WellKeyed<D>(store: map<ObjectID, D>, objectIDOf: D -> ObjectID) {
    forall k :: k in store ==> objectIDOf(store[k]) == k
  }

  /** No two stored documents share an orderedID. */
  ghost predicate UniqueOrderedIDs<D>(store: map<ObjectID, D>, orderedIDOf: D -> nat) {
    forall k1, k2 :: k1 in store && k2 in store && k1 != k2 ==> orderedIDOf(store[k1]) != orderedIDOf(store[k2])
  }

  /** `d` is a stored document that the query selects. */
  ghost predicate IsMatch<D>(store: map<ObjectID, D>, matches: D -> bool, d: D) {
    exists k :: k in store && store[k] == d && matches(d)
  }

  ghost predicate SortedBy<D>(s: seq<D>, key: D -> nat) {
    forall i, j :: 0 <= i < j < |s| ==> key(s[i]) <= key(s[j])
  }

  ghost predicate StrictlySortedBy<D>(s: seq<D>, key: D -> nat) {
    forall i, j :: 0 <= i < j < |s| ==> key(s[i]) < key(s[j])
  }

  ghost predicate DistinctKeys<D>(s: seq<D>, key: D -> nat) {
    forall i, j :: 0 <= i < j < |s| ==> key(s[i]) != key(s[j])
  }

  /** The documents the query selects, in scan order (Firestore's `where` before any sorting). */
  function Matching<D(==,!new)>(store: map<ObjectID, D>, scan: seq<ObjectID>, matches: D -> bool): (r: seq<D>)
    requires forall i :: 0 <= i < |scan| ==> scan[i] in store
    ensures forall d :: d in r <==> exists i :: 0 <= i < |scan| && store[scan[i]] == d && matches(d)
    ensures |r| <= |scan|
    ensures (forall i, j :: 0 <= i < j < |scan| ==> store[scan[i]] != store[scan[j]]) ==>
      forall i, j :: 0 <= i < j < |r| ==> r[i] != r[j]
    decreases |scan|
  {
    if |scan| == 0 then []
    else
      var rest := Matching(store, scan[1..], matches);
      assert forall i :: 1 <= i < |scan| ==> scan[i] == scan[1..][i - 1];
      var d := store[scan[0]];
      if matches(d) then [d] + rest else rest
  }

  /** Insert `x` into a sorted sequence before the first element whose key is not smaller. */
  function Insert<D(==)>(x: D, s: seq<D>, key: D -> nat): (r: seq<D>)
    requires SortedBy(s, key)
    ensures SortedBy(r, key)
    ensures multiset(r) == multiset(s) + multiset{x}
    decreases |s|
  {
    if |s| == 0 || key(x) <= key(s[0]) then [x] + s
    else
      var rest := Insert(x, s[1..], key);
      assert s == [s[0]] + s[1..];
      assert forall j :: 1 <= j < |s| ==> key(s[0]) <= key(s[j]);
      BoundedByMultiset(rest, s[1..], x, key(s[0]), key);
      ConsSorted(s[0], rest, key);
      assert multiset([s[0]] + rest) == multiset{s[0]} + multiset(rest);
      [s[0]] + rest
  }

  /** An element no larger than every element of a sorted sequence can be put in front of it. */
  lemma ConsSorted<D>(h: D, t: seq<D>, key: D -> nat)
    requires SortedBy(t, key)
    requires forall j :: 0 <= j < |t| ==> key(h) <= key(t[j])
    ensures SortedBy([h] + t, key)
  {
    var s := [h] + t;
    forall i, j | 0 <= i < j < |s|
      ensures key(s[i]) <= key(s[j])
    {
      assert s[j] == t[j - 1];
      if i > 0 {
        assert s[i] == t[i - 1];
      }
    }
  }

  /** A lower bound on every element of `t` and on `x` bounds every element of a permutation of `t + [x]`. */
  lemma BoundedByMultiset<D>(rest: seq<D>, t: seq<D>, x: D, lo: nat, key: D -> nat)
    requires multiset(rest) == multiset(t) + multiset{x}
    requires forall j :: 0 <= j < |t| ==> lo <= key(t[j])
    requires lo <= key(x)
    ensures forall j :: 0 <= j < |rest| ==> lo <= key(rest[j])
  {
    forall j | 0 <= j < |rest|
      ensures lo <= key(rest[j])
    {
      assert rest[j] in multiset(rest);
      if rest[j] != x {
        assert rest[j] in multiset(t);
        var i :| 0 <= i < |t| && t[i] == rest[j];
      }
    }
  }

  /**
   * The in-memory sort by orderedID (insertion sort, stable like JS
   * `Array.prototype.sort`): a sorted permutation of its input.
   */
  function SortByOrderedID<D(==)>(s: seq<D>, key: D -> nat): (r: seq<D>)
    ensures SortedBy(r, key)
    ensures multiset(r) == multiset(s)
    decreases |s|
  {
    if |s| == 0 then []
    else
      assert s == [s[0]] + s[1..];
      Insert(s[0], SortByOrderedID(s[1..], key), key)
  }

  /** Firestore's `limit`, and JS `slice(0, limit)`. */
  function Take<D>(s: seq<D>, limit: Option<nat>): seq<D> {
    if limit.Some? && limit.value < |s| then s[..limit.value] else s
  }

  /** The documents strictly after a cursor whose orderedID is `bound` (Firestore's `startAfter`). */
  function After<D>(s: seq<D>, key: D -> nat, bound: nat): seq<D>
    decreases |s|
  {
    if |s| == 0 then []
    else if key(s[0]) > bound then [s[0]] + After(s[1..], key, bound)
    else After(s[1..], key, bound)
  }

  /** The equality path: ordered by orderedID, started after the cursor, limited. */
  function EqualityPage<D>(sorted: seq<D>, key: D -> nat, cursorOrderedID: Option<nat>, limit: Option<nat>): seq<D> {
    Take(if cursorOrderedID.Some? then After(sorted, key, cursorOrderedID.value) else sorted, limit)
  }

  /** JS `findIndex`: the first position whose object ID is `id`. */
  function IndexOfObject<D>(s: seq<D>, objectIDOf: D -> ObjectID, id: ObjectID): (r: Option<nat>)
    ensures r.Some? ==> r.value < |s| && objectIDOf(s[r.value]) == id
    ensures r.Some? ==> forall j :: 0 <= j < r.value ==> objectIDOf(s[j]) != id
    ensures r.None? ==> forall j :: 0 <= j < |s| ==> objectIDOf(s[j]) != id
    decreases |s|
  {
    if |s| == 0 then None
    else if objectIDOf(s[0]) == id then Some(0)
    else
      match IndexOfObject(s[1..], objectIDOf, id)
      case None => None
      case Some(i) => Some(i + 1)
  }

  /** The end of a page that starts at `start`: JS `slice(start, start + limit)` clamps to the length. */
  function PageEnd(start: nat, limit: Option<nat>, length: nat): nat {
    if limit.Some? && start + limit.value < length then start + limit.value else length
  }

  /**
   * The range path, after the in-memory sort: locate the cursor by linear search
   * and slice the page that follows it.
   */
  function RangePage<D>(sorted: seq<D>, objectIDOf: D -> ObjectID, cursor: Option<ObjectID>, limit: Option<nat>): (r: Result<seq<D>>)
    ensures r.Err? <==> cursor.Some? && forall j :: 0 <= j < |sorted| ==> objectIDOf(sorted[j]) != cursor.value
    ensures r.Err? ==> r.error == AfterIDDisappeared(cursor.value)
    ensures r.Ok? ==>
      exists start :: 0 <= start <= |sorted|
        && r.value == sorted[start..PageEnd(start, limit, |sorted|)]
        && (cursor.None? ==> start == 0)
        && (cursor.Some? ==>
              && 0 < start
              && objectIDOf(sorted[start - 1]) == cursor.value
              && forall j :: 0 <= j < start - 1 ==> objectIDOf(sorted[j]) != cursor.value)
  {
    if cursor.None? then
      Ok(sorted[0..PageEnd(0, limit, |sorted|)])
    else
      match IndexOfObject(sorted, objectIDOf, cursor.value)
      case None => Err(AfterIDDisappeared(cursor.value))
      case Some(i) => Ok(sorted[i + 1..PageEnd(i + 1, limit, |sorted|)])
  }

  /** The documents the query selects, sorted by orderedID. */
  function SortedMatches<D(==,!new)>(store: map<ObjectID, D>, scan: seq<ObjectID>, L: Listing<D>): (r: seq<D>)
    requires ScanOrder(store, scan)
    ensures SortedBy(r, L.orderedIDOf)
    ensures forall d :: d in r <==> IsMatch(store, L.matches, d)
    ensures |r| <= |scan|
  {
    var m := Matching(store, scan, L.matches);
    var r := SortByOrderedID(m, L.orderedIDOf);
    assert |r| == |multiset(r)| == |multiset(m)| == |m|;
    assert forall d :: d in r <==> d in m by {
      forall d
        ensures d in r <==> d in m
      {
        assert d in r <==> d in multiset(r);
        assert d in m <==> d in multiset(m);
      }
    }
    assert forall d :: IsMatch(store, L.matches, d) ==> d in m by {
      forall d | IsMatch(store, L.matches, d)
        ensures d in m
      {
        var k :| k in store && store[k] == d && L.matches(d);
        var i :| 0 <= i < |scan| && scan[i] == k;
      }
    }
    r
  }

  /**
   * `_listDocuments`. An unknown cursor fails first; then either the equality
   * path (`orderedIDIndex`: no predicate, or an `=` predicate) or the range path.
   */
  function ListDocuments<D(==,!new)>(store: map<ObjectID, D>, scan: seq<ObjectID>, L: Listing<D>, orderedIDIndex: bool, req: PageRequest): (r: Result<seq<D>>)
    requires ScanOrder(store, scan)
    ensures var c := CursorOf(req.afterID);
      (c.Some? && c.value !in store) <==> (r.Err? && r.error.UnknownAfterID?)
    ensures var c := CursorOf(req.afterID);
      c.Some? && c.value !in store ==> r == Err(UnknownAfterID(c.value))
    ensures var c := CursorOf(req.afterID);
      orderedIDIndex ==> (r.Err? <==> c.Some? && c.value !in store)
    ensures var c := CursorOf(req.afterID);
      !orderedIDIndex && c.Some? && c.value in store ==>
        && (r.Err? <==> !exists d :: IsMatch(store, L.matches, d) && L.objectIDOf(d) == c.value)
        && (r.Err? ==> r == Err(AfterIDDisappeared(c.value)))
    ensures r.Ok? ==> SortedBy(r.value, L.orderedIDOf)
    ensures r.Ok? ==> forall d :: d in r.value ==> IsMatch(store, L.matches, d)
    ensures r.Ok? && req.limit.Some? ==> |r.value| <= req.limit.value
  {
    var c := CursorOf(req.afterID);
    if c.Some? && c.value !in store then Err(UnknownAfterID(c.value))
    else
      var sorted := SortedMatches(store, scan, L);
      if orderedIDIndex then
        var bound := if c.Some? then Some(L.orderedIDOf(store[c.value])) else None;
        var page := EqualityPage(sorted, L.orderedIDOf, bound, req.limit);
        EqualityPageFacts(sorted, L.orderedIDOf, bound, req.limit);
        Ok(page)
      else
        RangePageFacts(sorted, L.objectIDOf, L.orderedIDOf, c, req.limit);
        if c.Some? then CursorAmongMatches(store, L, sorted, c.value); RangePage(sorted, L.objectIDOf, c, req.limit)
        else RangePage(sorted, L.objectIDOf, c, req.limit)
  }

  /** The range path's page is a sorted run of the sorted documents, at most `limit` long. */
  lemma RangePageFacts<D>(sorted: seq<D>, objectIDOf: D -> ObjectID, key: D -> nat, cursor: Option<ObjectID>, limit: Option<nat>)
    requires SortedBy(sorted, key)
    ensures var r := RangePage(sorted, objectIDOf, cursor, limit);
      r.Ok? ==>
        && SortedBy(r.value, key)
        && (forall d :: d in r.value ==> d in sorted)
        && (limit.Some? ==> |r.value| <= limit.value)
  {
  }

  /** The cursor is absent from the sorted matches exactly when no selected document carries its ID. */
  lemma CursorAmongMatches<D(!new)>(store: map<ObjectID, D>, L: Listing<D>, sorted: seq<D>, id: ObjectID)
    requires forall d :: d in sorted <==> IsMatch(store, L.matches, d)
    ensures (forall j :: 0 <= j < |sorted| ==> L.objectIDOf(sorted[j]) != id)
      <==> !exists d :: IsMatch(store, L.matches, d) && L.objectIDOf(d) == id
  {
  }

  /** `After` keeps exactly the elements above the bound, in order. */
  lemma {:induction false} AfterFacts<D>(s: seq<D>, key: D -> nat, bound: nat)
    ensures forall d :: d in After(s, key, bound) ==> d in s && key(d) > bound
    ensures SortedBy(s, key) ==> SortedBy(After(s, key, bound), key)
    decreases |s|
  {
    if |s| > 0 {
      AfterFacts(s[1..], key, bound);
      if SortedBy(s, key) {
        assert SortedBy(s[1..], key);
        var a := After(s[1..], key, bound);
        assert forall d :: d in a ==> key(s[0]) <= key(d) by {
          forall d | d in a
            ensures key(s[0]) <= key(d)
          {
            var i :| 0 <= i < |s[1..]| && s[1..][i] == d;
            assert s[i + 1] == d;
          }
        }
        assert forall j :: 0 <= j < |a| ==> a[j] in a;
      }
    }
  }

  /** What the equality path returns: sorted selected documents, at most `limit` of them. */
  lemma EqualityPageFacts<D>(sorted: seq<D>, key: D -> nat, bound: Option<nat>, limit: Option<nat>)
    requires SortedBy(sorted, key)
    ensures var page := EqualityPage(sorted, key, bound, limit);
      && SortedBy(page, key)
      && (forall d :: d in page ==> d in sorted)
      && (limit.Some? ==> |page| <= limit.value)
  {
    var full := if bound.Some? then After(sorted, key, bound.value) else sorted;
    if bound.Some? {
      AfterFacts(sorted, key, bound.value);
    }
    var page := Take(full, limit);
    assert forall i :: 0 <= i < |page| ==> page[i] == full[i];
    assert forall d :: d in page ==> d in full;
  }
}
