/**
 * Properties of cursor pagination: what each path returns, that the two paths
 * agree when orderedIDs are unique and the cursor matches the predicate, that
 * chaining pages enumerates every match exactly once, and that the result does
 * not depend on the order in which Firestore returned the matches.
 */
module PagingProperties {

  import opened Results
  import opened Paging

  /** The conditions under which a collection pages cleanly. */
  ghost predicate Paginable<D>(store: map<ObjectID, D>, scan: seq<ObjectID>, L: Listing<D>) {
    && ScanOrder(store, scan)
    && WellKeyed(store, L.objectIDOf)
    && UniqueOrderedIDs(store, L.orderedIDOf)
    && "" !in store
  }

  // ---------------------------------------------------------------------------
  // Sorting facts

  /** Inserting an element whose key no element shares keeps a sequence strictly sorted. */
  lemma {:induction false} InsertKeepsStrict<D>(x: D, t: seq<D>, key: D -> nat)
    requires StrictlySortedBy(t, key)
    requires forall j :: 0 <= j < |t| ==> key(t[j]) != key(x)
    ensures StrictlySortedBy(Insert(x, t, key), key)
    decreases |t|
  {
    if |t| > 0 && key(x) > key(t[0]) {
      assert forall j :: 0 <= j < |t[1..]| ==> t[1..][j] == t[j + 1];
      InsertKeepsStrict(x, t[1..], key);
      var rest := Insert(x, t[1..], key);
      BoundedByMultiset(rest, t[1..], x, key(t[0]) + 1, key);
      assert Insert(x, t, key) == [t[0]] + rest;
    }
  }

  /** Sorting a sequence whose keys are pairwise distinct yields a strictly sorted sequence. */
  lemma {:induction false} SortIsStrict<D>(s: seq<D>, key: D -> nat)
    requires DistinctKeys(s, key)
    ensures StrictlySortedBy(SortByOrderedID(s, key), key)
    decreases |s|
  {
    if |s| > 0 {
      assert forall j :: 0 <= j < |s[1..]| ==> s[1..][j] == s[j + 1];
      SortIsStrict(s[1..], key);
      var t := SortByOrderedID(s[1..], key);
      forall j | 0 <= j < |t|
        ensures key(t[j]) != key(s[0])
      {
        assert t[j] in multiset(t);
        assert t[j] in multiset(s[1..]);
        var i :| 0 <= i < |s[1..]| && s[1..][i] == t[j];
        assert s[i + 1] == t[j];
      }
      InsertKeepsStrict(s[0], t, key);
    }
  }

  /** With unique orderedIDs, the documents a query selects have pairwise distinct orderedIDs. */
  lemma {:induction false} MatchingHasDistinctKeys<D(!new)>(store: map<ObjectID, D>, scan: seq<ObjectID>, L: Listing<D>)
    requires forall i :: 0 <= i < |scan| ==> scan[i] in store
    requires forall i, j :: 0 <= i < j < |scan| ==> scan[i] != scan[j]
    requires UniqueOrderedIDs(store, L.orderedIDOf)
    ensures DistinctKeys(Matching(store, scan, L.matches), L.orderedIDOf)
    decreases |scan|
  {
    if |scan| > 0 {
      var tail := scan[1..];
      assert forall i :: 0 <= i < |tail| ==> tail[i] == scan[i + 1];
      MatchingHasDistinctKeys(store, tail, L);
      var rest := Matching(store, tail, L.matches);
      var d := store[scan[0]];
      forall j | 0 <= j < |rest|
        ensures L.orderedIDOf(rest[j]) != L.orderedIDOf(d)
      {
        assert rest[j] in rest;
        var i :| 0 <= i < |tail| && store[tail[i]] == rest[j] && L.matches(rest[j]);
        assert tail[i] != scan[0];
      }
    }
  }

  /** With unique orderedIDs, the sorted matches are strictly increasing in orderedID. */
  lemma SortedMatchesStrict<D(!new)>(store: map<ObjectID, D>, scan: seq<ObjectID>, L: Listing<D>)
    requires ScanOrder(store, scan)
    requires UniqueOrderedIDs(store, L.orderedIDOf)
    ensures StrictlySortedBy(SortedMatches(store, scan, L), L.orderedIDOf)
  {
    MatchingHasDistinctKeys(store, scan, L);
    SortIsStrict(Matching(store, scan, L.matches), L.orderedIDOf);
  }

  /** Two strictly sorted sequences with the same elements are equal. */
  lemma {:induction false} StrictlySortedUnique<D>(a: seq<D>, b: seq<D>, key: D -> nat)
    requires StrictlySortedBy(a, key) && StrictlySortedBy(b, key)
    requires forall d :: d in a <==> d in b
    ensures a == b
    decreases |a|
  {
    if |a| > 0 {
      assert a[0] in b;
    }
    if |b| > 0 {
      assert b[0] in a;
    }
    if |a| == 0 {
    } else {
      assert a[0] in a;
      var j :| 0 <= j < |b| && b[j] == a[0];
      assert b[0] in b;
      var k :| 0 <= k < |a| && a[k] == b[0];
      assert key(a[0]) <= key(a[k]) == key(b[0]) <= key(b[j]) == key(a[0]);
      assert k == 0 && j == 0;
      var a', b' := a[1..], b[1..];
      TailsSameMembers(a, b, key);
      StrictlySortedUnique(a', b', key);
      assert a == [a[0]] + a' && b == [b[0]] + b';
    }
  }

  /** Two strictly sorted sequences with the same elements and the same head have tails with the same elements. */
  lemma TailsSameMembers<D>(a: seq<D>, b: seq<D>, key: D -> nat)
    requires |a| > 0 && |b| > 0 && a[0] == b[0]
    requires StrictlySortedBy(a, key) && StrictlySortedBy(b, key)
    requires forall d :: d in a <==> d in b
    ensures forall d :: d in a[1..] <==> d in b[1..]
  {
    var a', b' := a[1..], b[1..];
    forall d
      ensures d in a' <==> d in b'
    {
      if d in a' {
        var i :| 0 <= i < |a'| && a'[i] == d;
        assert a'[i] == a[i + 1];
        assert key(a[0]) < key(a[i + 1]);
        assert d in b && d != b[0];
        var m :| 0 <= m < |b| && b[m] == d;
        assert b'[m - 1] == d;
      }
      if d in b' {
        var i :| 0 <= i < |b'| && b'[i] == d;
        assert b'[i] == b[i + 1];
        assert key(b[0]) < key(b[i + 1]);
        assert d in a && d != a[0];
        var m :| 0 <= m < |a| && a[m] == d;
        assert a'[m - 1] == d;
      }
    }
  }

  // ---------------------------------------------------------------------------
  // The equality path

  /** `After` keeps exactly the elements above the bound. */
  lemma {:induction false} AfterMembers<D(!new)>(s: seq<D>, key: D -> nat, bound: nat)
    ensures forall d :: d in After(s, key, bound) <==> d in s && key(d) > bound
    decreases |s|
  {
    if |s| > 0 {
      AfterMembers(s[1..], key, bound);
      assert s == [s[0]] + s[1..];
    }
  }

  /** If every key is above the bound, `After` keeps everything. */
  lemma {:induction false} AfterKeepsAllAbove<D>(s: seq<D>, key: D -> nat, bound: nat)
    requires forall j :: 0 <= j < |s| ==> key(s[j]) > bound
    ensures After(s, key, bound) == s
    decreases |s|
  {
    if |s| > 0 {
      assert forall j :: 0 <= j < |s[1..]| ==> s[1..][j] == s[j + 1];
      AfterKeepsAllAbove(s[1..], key, bound);
      assert s == [s[0]] + s[1..];
    }
  }

  /** `After` keeps a strictly sorted sequence strictly sorted. */
  lemma {:induction false} AfterKeepsStrict<D(!new)>(s: seq<D>, key: D -> nat, bound: nat)
    requires StrictlySortedBy(s, key)
    ensures StrictlySortedBy(After(s, key, bound), key)
    decreases |s|
  {
    if |s| > 0 {
      var t := s[1..];
      assert forall j :: 0 <= j < |t| ==> t[j] == s[j + 1];
      AfterKeepsStrict(t, key, bound);
      AfterMembers(t, key, bound);
      var rest := After(t, key, bound);
      if key(s[0]) > bound {
        forall j | 0 <= j < |rest|
          ensures key(s[0]) < key(rest[j])
        {
          assert rest[j] in rest;
          var m :| 0 <= m < |t| && t[m] == rest[j];
          assert key(s[0]) < key(s[m + 1]);
        }
      }
    }
  }

  /** In a strictly sorted sequence, the elements after the one at `i` are exactly its suffix. */
  lemma {:induction false} AfterIsSuffix<D>(s: seq<D>, key: D -> nat, i: nat)
    requires StrictlySortedBy(s, key)
    requires i < |s|
    ensures After(s, key, key(s[i])) == s[i + 1..]
    decreases |s|
  {
    var t := s[1..];
    assert forall j :: 0 <= j < |t| ==> t[j] == s[j + 1];
    if i == 0 {
      AfterKeepsAllAbove(t, key, key(s[0]));
    } else {
      assert t[i - 1] == s[i];
      AfterIsSuffix(t, key, i - 1);
      assert t[i..] == s[i + 1..];
    }
  }

  /** On the equality path with a resolvable cursor, `_listDocuments` is the equality page of the sorted matches. */
  lemma EqualityPathUnfold<D(!new)>(store: map<ObjectID, D>, scan: seq<ObjectID>, L: Listing<D>, req: PageRequest)
    requires ScanOrder(store, scan)
    requires var c := CursorOf(req.afterID); c.Some? ==> c.value in store
    ensures var c := CursorOf(req.afterID);
      ListDocuments(store, scan, L, true, req)
        == Ok(EqualityPage(SortedMatches(store, scan, L), L.orderedIDOf,
                           if c.Some? then Some(L.orderedIDOf(store[c.value])) else None, req.limit))
  {
  }

  /** On the range path with a resolvable cursor, `_listDocuments` is the range page of the sorted matches. */
  lemma RangePathUnfold<D(!new)>(store: map<ObjectID, D>, scan: seq<ObjectID>, L: Listing<D>, req: PageRequest)
    requires ScanOrder(store, scan)
    requires var c := CursorOf(req.afterID); c.Some? ==> c.value in store
    ensures ListDocuments(store, scan, L, false, req)
        == RangePage(SortedMatches(store, scan, L), L.objectIDOf, CursorOf(req.afterID), req.limit)
  {
  }

  /** The equality page is a prefix, cut only by the limit, of the sorted elements above the bound. */
  lemma EqualityPageIsPrefix<D(!new)>(sorted: seq<D>, key: D -> nat, bound: Option<nat>, limit: Option<nat>) returns (full: seq<D>)
    requires SortedBy(sorted, key)
    ensures SortedBy(full, key)
    ensures StrictlySortedBy(sorted, key) ==> StrictlySortedBy(full, key)
    ensures forall d :: d in full <==> d in sorted && (bound.Some? ==> key(d) > bound.value)
    ensures var page := EqualityPage(sorted, key, bound, limit);
      && |page| <= |full|
      && page == full[..|page|]
      && (|page| == |full| || (limit.Some? && |page| == limit.value))
  {
    full := if bound.Some? then After(sorted, key, bound.value) else sorted;
    if bound.Some? {
      AfterMembers(sorted, key, bound.value);
      AfterFacts(sorted, key, bound.value);
      if StrictlySortedBy(sorted, key) {
        AfterKeepsStrict(sorted, key, bound.value);
      }
    }
  }

  /**
   * The equality path returns, in ascending orderedID order, a prefix of the
   * selected documents whose orderedID is above the cursor's; the prefix is
   * cut short only by the limit.
   */
  lemma EqualityPathPage<D(!new)>(store: map<ObjectID, D>, scan: seq<ObjectID>, L: Listing<D>, req: PageRequest, page: seq<D>)
    returns (full: seq<D>)
    requires ScanOrder(store, scan)
    requires ListDocuments(store, scan, L, true, req) == Ok(page)
    ensures SortedBy(full, L.orderedIDOf)
    ensures UniqueOrderedIDs(store, L.orderedIDOf) ==> StrictlySortedBy(full, L.orderedIDOf)
    ensures var c := CursorOf(req.afterID);
      forall d :: d in full <==>
        && IsMatch(store, L.matches, d)
        && (c.Some? ==> L.orderedIDOf(d) > L.orderedIDOf(store[c.value]))
    ensures |page| <= |full| && page == full[..|page|]
    ensures |page| == |full| || (req.limit.Some? && |page| == req.limit.value)
  {
    var c := CursorOf(req.afterID);
    var sorted := SortedMatches(store, scan, L);
    var bound := if c.Some? then Some(L.orderedIDOf(store[c.value])) else None;
    EqualityPathUnfold(store, scan, L, req);
    if UniqueOrderedIDs(store, L.orderedIDOf) {
      SortedMatchesStrict(store, scan, L);
    }
    full := EqualityPageIsPrefix(sorted, L.orderedIDOf, bound, req.limit);
    assert page == EqualityPage(sorted, L.orderedIDOf, bound, req.limit);
  }

  /**
   * The range path returns a contiguous run of the sorted selected documents:
   * it starts at 0 without a cursor and otherwise right after the first
   * position holding the cursor's object, and it runs to the end unless the
   * limit cuts it.
   */
  lemma RangePathPage<D(!new)>(store: map<ObjectID, D>, scan: seq<ObjectID>, L: Listing<D>, req: PageRequest, page: seq<D>)
    returns (start: nat)
    requires ScanOrder(store, scan)
    requires ListDocuments(store, scan, L, false, req) == Ok(page)
    ensures var sorted := SortedMatches(store, scan, L);
      && start <= |sorted|
      && page == sorted[start..PageEnd(start, req.limit, |sorted|)]
      && (req.limit.None? ==> page == sorted[start..])
    ensures var sorted := SortedMatches(store, scan, L);
      var c := CursorOf(req.afterID);
      && (c.None? ==> start == 0)
      && (c.Some? ==>
            && 0 < start
            && L.objectIDOf(sorted[start - 1]) == c.value
            && forall j :: 0 <= j < start - 1 ==> L.objectIDOf(sorted[j]) != c.value)
  {
    RangePathUnfold(store, scan, L, req);
    start := RangePageStart(SortedMatches(store, scan, L), L.objectIDOf, CursorOf(req.afterID), req.limit);
  }

  /** Where a successful range page starts. */
  lemma RangePageStart<D>(sorted: seq<D>, objectIDOf: D -> ObjectID, c: Option<ObjectID>, limit: Option<nat>)
    returns (start: nat)
    requires RangePage(sorted, objectIDOf, c, limit).Ok?
    ensures start <= |sorted|
    ensures RangePage(sorted, objectIDOf, c, limit).value == sorted[start..PageEnd(start, limit, |sorted|)]
    ensures c.None? ==> start == 0
    ensures c.Some? ==>
      && 0 < start
      && objectIDOf(sorted[start - 1]) == c.value
      && forall j :: 0 <= j < start - 1 ==> objectIDOf(sorted[j]) != c.value
  {
    var r := RangePage(sorted, objectIDOf, c, limit);
    start :| 0 <= start <= |sorted|
        && r.value == sorted[start..PageEnd(start, limit, |sorted|)]
        && (c.None? ==> start == 0)
        && (c.Some? ==>
              && 0 < start
              && objectIDOf(sorted[start - 1]) == c.value
              && forall j :: 0 <= j < start - 1 ==> objectIDOf(sorted[j]) != c.value);
  }

  // ---------------------------------------------------------------------------
  // The two paths agree

  /** The position at which the range path finds the cursor is the cursor document itself. */
  lemma CursorPosition<D(!new)>(store: map<ObjectID, D>, scan: seq<ObjectID>, L: Listing<D>, c: ObjectID) returns (i: nat)
    requires ScanOrder(store, scan) && WellKeyed(store, L.objectIDOf) && UniqueOrderedIDs(store, L.orderedIDOf)
    requires c in store && L.matches(store[c])
    ensures var sorted := SortedMatches(store, scan, L);
      && i < |sorted|
      && sorted[i] == store[c]
      && IndexOfObject(sorted, L.objectIDOf, c) == Some(i)
  {
    var sorted := SortedMatches(store, scan, L);
    assert IsMatch(store, L.matches, store[c]);
    var p :| 0 <= p < |sorted| && sorted[p] == store[c];
    assert L.objectIDOf(sorted[p]) == c;
    var j := IndexOfObject(sorted, L.objectIDOf, c).value;
    assert sorted[j] in sorted;
    var k :| k in store && store[k] == sorted[j] && L.matches(sorted[j]);
    assert k == c;
    i := j;
  }

  /** In a strictly sorted sequence, the equality page after position `i` is the slice that starts at `i + 1`. */
  lemma EqualityPageAfterPosition<D>(sorted: seq<D>, key: D -> nat, i: nat, limit: Option<nat>)
    requires StrictlySortedBy(sorted, key)
    requires i < |sorted|
    ensures EqualityPage(sorted, key, Some(key(sorted[i])), limit) == sorted[i + 1..PageEnd(i + 1, limit, |sorted|)]
  {
    AfterIsSuffix(sorted, key, i);
  }

  /** With a cursor that is among the sorted matches, both paths return the slice after it. */
  lemma PathsAgreeWithCursor<D(!new)>(store: map<ObjectID, D>, scan: seq<ObjectID>, L: Listing<D>, req: PageRequest)
    requires ScanOrder(store, scan) && WellKeyed(store, L.objectIDOf) && UniqueOrderedIDs(store, L.orderedIDOf)
    requires var c := CursorOf(req.afterID); c.Some? && c.value in store && L.matches(store[c.value])
    ensures ListDocuments(store, scan, L, true, req) == ListDocuments(store, scan, L, false, req)
  {
    var c := CursorOf(req.afterID).value;
    var sorted := SortedMatches(store, scan, L);
    SortedMatchesStrict(store, scan, L);
    var i := CursorPosition(store, scan, L, c);
    EqualityPageAfterPosition(sorted, L.orderedIDOf, i, req.limit);
    assert RangePage(sorted, L.objectIDOf, Some(c), req.limit) == Ok(sorted[i + 1..PageEnd(i + 1, req.limit, |sorted|)]);
    EqualityPathUnfold(store, scan, L, req);
    RangePathUnfold(store, scan, L, req);
  }

  /** Without a cursor, both paths return the first `limit` sorted matches. */
  lemma PathsAgreeWithoutCursor<D(!new)>(store: map<ObjectID, D>, scan: seq<ObjectID>, L: Listing<D>, req: PageRequest)
    requires ScanOrder(store, scan)
    requires CursorOf(req.afterID).None?
    ensures ListDocuments(store, scan, L, true, req) == ListDocuments(store, scan, L, false, req)
  {
    var sorted := SortedMatches(store, scan, L);
    assert EqualityPage(sorted, L.orderedIDOf, None, req.limit) == sorted[0..PageEnd(0, req.limit, |sorted|)];
    EqualityPathUnfold(store, scan, L, req);
    RangePathUnfold(store, scan, L, req);
  }

  /**
   * When orderedIDs are unique, documents are stored under their own IDs and
   * the cursor document (if any) matches the predicate, the equality path and
   * the range path return the same page.
   */
  lemma PathsAgree<D(!new)>(store: map<ObjectID, D>, scan: seq<ObjectID>, L: Listing<D>, req: PageRequest)
    requires ScanOrder(store, scan) && WellKeyed(store, L.objectIDOf) && UniqueOrderedIDs(store, L.orderedIDOf)
    requires var c := CursorOf(req.afterID); c.Some? && c.value in store ==> L.matches(store[c.value])
    ensures ListDocuments(store, scan, L, true, req) == ListDocuments(store, scan, L, false, req)
  {
    var c := CursorOf(req.afterID);
    if c.None? {
      PathsAgreeWithoutCursor(store, scan, L, req);
    } else if c.value in store {
      PathsAgreeWithCursor(store, scan, L, req);
    }
  }

  // ---------------------------------------------------------------------------
  // Chaining pages

  /** The cursor that resumes after position `pos - 1` of `sorted` (none at the start). */
  function ResumeAt<D>(sorted: seq<D>, objectIDOf: D -> ObjectID, pos: nat): Option<ObjectID>
    requires pos <= |sorted|
  {
    if pos == 0 then None else Some(objectIDOf(sorted[pos - 1]))
  }

  /**
   * Fetch pages with `fetch`, each time resuming after the last document
   * returned, until a page comes back empty (or `fuel` runs out).
   */
  function Chain<D>(fetch: Option<ObjectID> --> Result<seq<D>>, objectIDOf: D -> ObjectID, afterID: Option<ObjectID>, fuel: nat): Result<seq<D>>
    requires forall a :: fetch.requires(a)
    decreases fuel
  {
    var page :- fetch(afterID);
    if |page| == 0 || fuel == 0 then Ok(page)
    else
      var rest :- Chain(fetch, objectIDOf, Some(objectIDOf(page[|page| - 1])), fuel - 1);
      Ok(page + rest)
  }

  /** Chaining pages of `limit` documents of one query. */
  function PageChain<D(==,!new)>(store: map<ObjectID, D>, scan: seq<ObjectID>, L: Listing<D>, orderedIDIndex: bool, limit: nat, afterID: Option<ObjectID>, fuel: nat): Result<seq<D>>
    requires ScanOrder(store, scan)
  {
    Chain(a requires ScanOrder(store, scan) => ListDocuments(store, scan, L, orderedIDIndex, PageRequest(a, Some(limit))),
          L.objectIDOf, afterID, fuel)
  }

  /**
   * If every resumption point of `sorted` yields the next slice of at most
   * `limit` documents, chaining from position `pos` yields the rest of `sorted`.
   */
  lemma {:induction false} ChainOverSlices<D>(fetch: Option<ObjectID> --> Result<seq<D>>, objectIDOf: D -> ObjectID, sorted: seq<D>, limit: nat, pos: nat, fuel: nat)
    requires forall a :: fetch.requires(a)
    requires forall p :: 0 <= p <= |sorted| ==> fetch(ResumeAt(sorted, objectIDOf, p)) == Ok(sorted[p..PageEnd(p, Some(limit), |sorted|)])
    requires 1 <= limit
    requires pos <= |sorted|
    requires |sorted| - pos <= fuel
    ensures Chain(fetch, objectIDOf, ResumeAt(sorted, objectIDOf, pos), fuel) == Ok(sorted[pos..])
    decreases fuel
  {
    var end := PageEnd(pos, Some(limit), |sorted|);
    var page := sorted[pos..end];
    assert fetch(ResumeAt(sorted, objectIDOf, pos)) == Ok(page);
    if pos < |sorted| {
      assert page[|page| - 1] == sorted[end - 1];
      assert ResumeAt(sorted, objectIDOf, end) == Some(objectIDOf(page[|page| - 1]));
      ChainOverSlices(fetch, objectIDOf, sorted, limit, end, fuel - 1);
      assert page + sorted[end..] == sorted[pos..];
    }
  }

  /** Resuming after the document at `pos - 1` of the sorted matches returns the next slice, on either path. */
  lemma PageAfterPosition<D(!new)>(store: map<ObjectID, D>, scan: seq<ObjectID>, L: Listing<D>, orderedIDIndex: bool, limit: nat, pos: nat)
    requires Paginable(store, scan, L)
    requires pos <= |SortedMatches(store, scan, L)|
    ensures var sorted := SortedMatches(store, scan, L);
      ListDocuments(store, scan, L, orderedIDIndex, PageRequest(ResumeAt(sorted, L.objectIDOf, pos), Some(limit)))
        == Ok(sorted[pos..PageEnd(pos, Some(limit), |sorted|)])
  {
    var sorted := SortedMatches(store, scan, L);
    var afterID := ResumeAt(sorted, L.objectIDOf, pos);
    var req := PageRequest(afterID, Some(limit));
    if pos > 0 {
      var d := sorted[pos - 1];
      assert d in sorted;
      var k :| k in store && store[k] == d && L.matches(d);
      assert L.objectIDOf(d) == k && k != "";
      assert CursorOf(afterID) == Some(k);
      var i := CursorPosition(store, scan, L, k);
      SortedMatchesStrict(store, scan, L);
      assert i == pos - 1;
    }
    PathsAgree(store, scan, L, req);
  }

  /**
   * Starting without a cursor and resuming after the last document of each
   * page, over an unchanged store, enumerates every selected document exactly
   * once, in ascending orderedID order, on either path.
   */
  lemma ChainedPagesEnumerateAllMatches<D(!new)>(store: map<ObjectID, D>, scan: seq<ObjectID>, L: Listing<D>, orderedIDIndex: bool, limit: nat, fuel: nat)
    requires Paginable(store, scan, L)
    requires 1 <= limit
    requires |SortedMatches(store, scan, L)| <= fuel
    ensures PageChain(store, scan, L, orderedIDIndex, limit, None, fuel).Ok?
    ensures var all := PageChain(store, scan, L, orderedIDIndex, limit, None, fuel).value;
      && StrictlySortedBy(all, L.orderedIDOf)
      && (forall d :: d in all <==> IsMatch(store, L.matches, d))
  {
    var sorted := SortedMatches(store, scan, L);
    var fetch := a requires ScanOrder(store, scan) => ListDocuments(store, scan, L, orderedIDIndex, PageRequest(a, Some(limit)));
    forall p | 0 <= p <= |sorted|
      ensures fetch(ResumeAt(sorted, L.objectIDOf, p)) == Ok(sorted[p..PageEnd(p, Some(limit), |sorted|)])
    {
      PageAfterPosition(store, scan, L, orderedIDIndex, limit, p);
    }
    ChainOverSlices(fetch, L.objectIDOf, sorted, limit, 0, fuel);
    assert sorted[0..] == sorted;
    SortedMatchesStrict(store, scan, L);
  }

  // ---------------------------------------------------------------------------
  // Independence from Firestore's scan order

  /** With unique orderedIDs, the page does not depend on the order in which Firestore returned the matches. */
  lemma ListingIndependentOfScanOrder<D(!new)>(store: map<ObjectID, D>, scan1: seq<ObjectID>, scan2: seq<ObjectID>, L: Listing<D>, orderedIDIndex: bool, req: PageRequest)
    requires ScanOrder(store, scan1) && ScanOrder(store, scan2)
    requires UniqueOrderedIDs(store, L.orderedIDOf)
    ensures ListDocuments(store, scan1, L, orderedIDIndex, req) == ListDocuments(store, scan2, L, orderedIDIndex, req)
  {
    SortedMatchesStrict(store, scan1, L);
    SortedMatchesStrict(store, scan2, L);
    StrictlySortedUnique(SortedMatches(store, scan1, L), SortedMatches(store, scan2, L), L.orderedIDOf);
  }
}
