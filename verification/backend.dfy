/**
 * The Firestore database backend: one user's entity and event collections, the
 * batched lookups, the two list queries, `modifyEntities` and `putEvents`.
 * A transaction either commits all of its writes or none: an operation that
 * fails returns an error and leaves the store as it was.
 */
module FirestoreBackend {

  import opened Results
  import opened OrderedIDs
  import opened Documents
  import opened Predicates
  import opened Paging

  /**
   * One user's data: the entity and event collections, each keyed by the ID of
   * the object stored in the document, and the backend's orderedID generator.
   */
  datatype Store = Store(
    entities: map<EntityID, EntityDocument>,
    events: map<EventID, EventDocument>,
    generator: Generator)

  // ---------------------------------------------------------------------------
  // Batched lookups

  /** `_getByID`: one slot per requested ID, empty when no document exists. */
  function Fetch<D>(collection: map<string, D>, ids: seq<string>): (r: seq<Option<D>>)
    ensures |r| == |ids|
    ensures forall i :: 0 <= i < |ids| ==> (r[i].Some? <==> ids[i] in collection)
    ensures forall i :: 0 <= i < |ids| && r[i].Some? ==> r[i].value == collection[ids[i]]
  {
    seq(|ids|, i requires 0 <= i < |ids| => if ids[i] in collection then Some(collection[ids[i]]) else None)
  }

  /** With every document stored under its own ID, a keyed lookup returns exactly the requested documents that exist. */
  lemma KeyedLookup<D, V>(collection: map<string, D>, ids: seq<string>, idOf: D -> string, valueOf: D -> V)
    ensures var r := KeyedByOwnID(Fetch(collection, ids), idOf, valueOf);
      (forall k :: k in collection ==> idOf(collection[k]) == k) ==>
        && (forall k :: k in r <==> k in ids && k in collection)
        && (forall k :: k in r ==> r[k] == valueOf(collection[k]))
  {
    if forall k :: k in collection ==> idOf(collection[k]) == k {
      KeyedLookupWellKeyed(collection, ids, idOf, valueOf);
    }
  }

  lemma KeyedLookupWellKeyed<D, V>(collection: map<string, D>, ids: seq<string>, idOf: D -> string, valueOf: D -> V)
    requires forall k :: k in collection ==> idOf(collection[k]) == k
    ensures var r := KeyedByOwnID(Fetch(collection, ids), idOf, valueOf);
      && (forall k :: k in r <==> k in ids && k in collection)
      && (forall k :: k in r ==> r[k] == valueOf(collection[k]))
  {
    var docs := Fetch(collection, ids);
    var r := KeyedByOwnID(docs, idOf, valueOf);
    forall k | k in ids && k in collection
      ensures k in r
    {
      var i :| 0 <= i < |ids| && ids[i] == k;
      assert HasIDAt(docs, i, idOf, k);
    }
    forall k | k in r
      ensures k in ids && k in collection && r[k] == valueOf(collection[k])
    {
      var i :| 0 <= i < |docs| && HasIDAt(docs, i, idOf, k) && r[k] == valueOf(docs[i].value);
      assert ids[i] in collection && docs[i].value == collection[ids[i]];
      assert ids[i] == k;
    }
  }

  /**
   * `getEntities`: the records of the requested entities that exist. Every key
   * is the own ID of a document that was fetched; when every document is
   * stored under its own ID the keys are exactly the requested IDs that exist.
   */
  function GetEntities(s: Store, ids: seq<EntityID>): (r: map<EntityID, EntityRecord>)
    ensures forall k :: k in r ==> exists i :: 0 <= i < |ids| && ids[i] in s.entities && EntityIDOf(s.entities[ids[i]]) == k
    ensures WellKeyed(s.entities, EntityIDOf) ==>
      && (forall k :: k in r <==> k in ids && k in s.entities)
      && (forall k :: k in r ==> r[k] == RecordOf(s.entities[k]))
  {
    var r := RecordMapFromDocuments(Fetch(s.entities, ids));
    KeyedLookup(s.entities, ids, EntityIDOf, RecordOf);
    r
  }

  /** `getEvents`: the requested events that exist, keyed by their own IDs. */
  function GetEvents(s: Store, ids: seq<EventID>): (r: map<EventID, Event>)
    ensures forall k :: k in r ==> exists i :: 0 <= i < |ids| && ids[i] in s.events && EventIDOf(s.events[ids[i]]) == k
    ensures WellKeyed(s.events, EventIDOf) ==>
      && (forall k :: k in r <==> k in ids && k in s.events)
      && (forall k :: k in r ==> r[k] == s.events[k].event)
  {
    var r := KeyedByOwnID(Fetch(s.events, ids), EventIDOf, EventOf);
    KeyedLookup(s.events, ids, EventIDOf, EventOf);
    r
  }

  // ---------------------------------------------------------------------------
  // List queries

  /** A query for entities of one type, optionally filtered by due timestamp. */
  datatype EntityQuery = EntityQuery(
    entityType: EntityType,
    filter: Option<Predicate<int>>,
    afterID: Option<EntityID>,
    limit: Option<nat>)

  /** A query over the event log, optionally filtered by entity ID. */
  datatype EventQuery = EventQuery(
    filter: Option<Predicate<EntityID>>,
    afterID: Option<EventID>,
    limit: Option<nat>)

  /**
   * How Firestore compares a stored `minimumDueTimestampMillis` with a number:
   * Infinity lies above every finite value; a document without the field (or
   * holding NaN) is never selected by a filter on it.
   */
  function CompareDue(field: Option<JSNumber>, v: int): Option<Ordering> {
    match field
    case Some(Finite(x)) => Some(CompareInt(x, v))
    case Some(PositiveInfinity) => Some(Above)
    case _ => None
  }

  /** The Firestore filters `entity.type == entityType` and, if given, `minimumDueTimestampMillis <op> value`. */
  predicate EntitySelected(q: EntityQuery, d: EntityDocument) {
    && d.entity.Type() == q.entityType
    && (q.filter.Some? ==>
          var c := CompareDue(d.minimumDueTimestampMillis, q.filter.value.value);
          c.Some? && FirestoreHolds(MapQueryPredicateToFirestoreOp(q.filter.value.op), c.value))
  }

  /** The Firestore filter `event.entityID <op> value`, if a predicate is given. */
  predicate EventSelected(q: EventQuery, d: EventDocument) {
    q.filter.Some? ==>
      FirestoreHolds(MapQueryPredicateToFirestoreOp(q.filter.value.op), CompareString(d.event.entityID, q.filter.value.value))
  }

  function EntityListing(q: EntityQuery): Listing<EntityDocument> {
    Listing(EntityOrderedIDOf, EntityIDOf, d => EntitySelected(q, d))
  }

  function EventListing(q: EventQuery): Listing<EventDocument> {
    Listing(EventOrderedIDOf, EventIDOf, d => EventSelected(q, d))
  }

  /** What an entity query asks for, in the query language's own terms. */
  ghost predicate EntitySatisfies(q: EntityQuery, d: EntityDocument) {
    && d.entity.Type() == q.entityType
    && (q.filter.Some? ==>
          var c := CompareDue(d.minimumDueTimestampMillis, q.filter.value.value);
          c.Some? && QueryHolds(q.filter.value.op, c.value))
  }

  /** What an event query asks for, in the query language's own terms. */
  ghost predicate EventSatisfies(q: EventQuery, d: EventDocument) {
    q.filter.Some? ==> QueryHolds(q.filter.value.op, CompareString(d.event.entityID, q.filter.value.value))
  }

  /** The Firestore filters select exactly what the entity query asks for. */
  lemma EntitySelectedSatisfies(q: EntityQuery)
    ensures forall d :: EntitySelected(q, d) <==> EntitySatisfies(q, d)
  {
  }

  /** The Firestore filter selects exactly what the event query asks for. */
  lemma EventSelectedSatisfies(q: EventQuery)
    ensures forall d :: EventSelected(q, d) <==> EventSatisfies(q, d)
  {
  }

  /** Some stored entity with ID `id` is one the query asks for. */
  ghost predicate SelectsEntity(s: Store, q: EntityQuery, id: EntityID) {
    exists k :: k in s.entities && EntityIDOf(s.entities[k]) == id && EntitySatisfies(q, s.entities[k])
  }

  /** Some stored event with ID `id` is one the query asks for. */
  ghost predicate SelectsEvent(s: Store, q: EventQuery, id: EventID) {
    exists k :: k in s.events && EventIDOf(s.events[k]) == id && EventSatisfies(q, s.events[k])
  }

  /**
   * `recs` are the records of `page`, stored entity documents that the query
   * asks for, in ascending orderedID order.
   */
  ghost predicate IsEntityPage(s: Store, q: EntityQuery, page: seq<EntityDocument>, recs: seq<EntityRecord>) {
    && |recs| == |page|
    && SortedBy(page, EntityOrderedIDOf)
    && (forall i :: 0 <= i < |page| ==> recs[i] == RecordOf(page[i]))
    && (forall i :: 0 <= i < |page| ==> page[i] in s.entities.Values && EntitySatisfies(q, page[i]))
  }

  /**
   * `events` are the events of `page`, stored event documents that the query
   * asks for, in ascending orderedID order.
   */
  ghost predicate IsEventPage(s: Store, q: EventQuery, page: seq<EventDocument>, events: seq<Event>) {
    && |events| == |page|
    && SortedBy(page, EventOrderedIDOf)
    && (forall i :: 0 <= i < |page| ==> events[i] == page[i].event)
    && (forall i :: 0 <= i < |page| ==> page[i] in s.events.Values && EventSatisfies(q, page[i]))
  }

  function RecordsOf(page: seq<EntityDocument>): (r: seq<EntityRecord>)
    ensures |r| == |page| && forall i :: 0 <= i < |page| ==> r[i] == RecordOf(page[i])
  {
    seq(|page|, i requires 0 <= i < |page| => RecordOf(page[i]))
  }

  function EventsOf(page: seq<EventDocument>): (r: seq<Event>)
    ensures |r| == |page| && forall i :: 0 <= i < |page| ==> r[i] == page[i].event
  {
    seq(|page|, i requires 0 <= i < |page| => page[i].event)
  }

  /** A cursor is among the entity matches exactly when a stored entity with its ID is one the query asks for. */
  lemma EntityCursorSelected(s: Store, q: EntityQuery, id: EntityID)
    ensures (exists d :: IsMatch(s.entities, EntityListing(q).matches, d) && EntityIDOf(d) == id) <==> SelectsEntity(s, q, id)
  {
    EntitySelectedSatisfies(q);
    if SelectsEntity(s, q, id) {
      var k :| k in s.entities && EntityIDOf(s.entities[k]) == id && EntitySatisfies(q, s.entities[k]);
      assert IsMatch(s.entities, EntityListing(q).matches, s.entities[k]);
    }
  }

  /** A cursor is among the event matches exactly when a stored event with its ID is one the query asks for. */
  lemma EventCursorSelected(s: Store, q: EventQuery, id: EventID)
    ensures (exists d :: IsMatch(s.events, EventListing(q).matches, d) && EventIDOf(d) == id) <==> SelectsEvent(s, q, id)
  {
    EventSelectedSatisfies(q);
    if SelectsEvent(s, q, id) {
      var k :| k in s.events && EventIDOf(s.events[k]) == id && EventSatisfies(q, s.events[k]);
      assert IsMatch(s.events, EventListing(q).matches, s.events[k]);
    }
  }

  lemma EntityPageIs(s: Store, q: EntityQuery, page: seq<EntityDocument>)
    requires SortedBy(page, EntityOrderedIDOf)
    requires forall d :: d in page ==> IsMatch(s.entities, EntityListing(q).matches, d)
    ensures IsEntityPage(s, q, page, RecordsOf(page))
  {
    EntitySelectedSatisfies(q);
    assert forall i :: 0 <= i < |page| ==> page[i] in page;
  }

  lemma EventPageIs(s: Store, q: EventQuery, page: seq<EventDocument>)
    requires SortedBy(page, EventOrderedIDOf)
    requires forall d :: d in page ==> IsMatch(s.events, EventListing(q).matches, d)
    ensures IsEventPage(s, q, page, EventsOf(page))
  {
    EventSelectedSatisfies(q);
    assert forall i :: 0 <= i < |page| ==> page[i] in page;
  }

  /**
   * `listEntities`: one page of entity records. A cursor naming no stored
   * entity fails on both paths; on the range path, so does a stored cursor
   * that the query does not select. On success the records are those of
   * stored entities the query asks for, in ascending orderedID order, at most
   * `limit` of them.
   */
  function ListEntities(s: Store, scan: seq<EntityID>, q: EntityQuery): (r: Result<seq<EntityRecord>>)
    requires ScanOrder(s.entities, scan)
    ensures var c := CursorOf(q.afterID);
      (c.Some? && c.value !in s.entities) <==> (r.Err? && r.error.UnknownAfterID?)
    ensures var c := CursorOf(q.afterID);
      c.Some? && c.value !in s.entities ==> r == Err(UnknownAfterID(c.value))
    ensures var c := CursorOf(q.afterID);
      UsesOrderedIDIndex(q.filter) ==> (r.Err? <==> c.Some? && c.value !in s.entities)
    ensures var c := CursorOf(q.afterID);
      !UsesOrderedIDIndex(q.filter) && c.Some? && c.value in s.entities ==>
        && (r.Err? <==> !SelectsEntity(s, q, c.value))
        && (r.Err? ==> r == Err(AfterIDDisappeared(c.value)))
    ensures r.Ok? && q.limit.Some? ==> |r.value| <= q.limit.value
    ensures r.Ok? ==> exists page :: IsEntityPage(s, q, page, r.value)
  {
    var c := CursorOf(q.afterID);
    EntityCursorSelected(s, q, if c.Some? then c.value else "");
    var page :- ListDocuments(s.entities, scan, EntityListing(q), UsesOrderedIDIndex(q.filter), PageRequest(q.afterID, q.limit));
    EntityPageIs(s, q, page);
    Ok(RecordsOf(page))
  }

  /**
   * `listEvents`: one page of events. A cursor naming no stored event fails
   * on both paths; on the range path, so does a stored cursor that the query
   * does not select. On success the events are stored events the query asks
   * for, in ascending orderedID order, at most `limit` of them.
   */
  function ListEvents(s: Store, scan: seq<EventID>, q: EventQuery): (r: Result<seq<Event>>)
    requires ScanOrder(s.events, scan)
    ensures var c := CursorOf(q.afterID);
      (c.Some? && c.value !in s.events) <==> (r.Err? && r.error.UnknownAfterID?)
    ensures var c := CursorOf(q.afterID);
      c.Some? && c.value !in s.events ==> r == Err(UnknownAfterID(c.value))
    ensures var c := CursorOf(q.afterID);
      UsesOrderedIDIndex(q.filter) ==> (r.Err? <==> c.Some? && c.value !in s.events)
    ensures var c := CursorOf(q.afterID);
      !UsesOrderedIDIndex(q.filter) && c.Some? && c.value in s.events ==>
        && (r.Err? <==> !SelectsEvent(s, q, c.value))
        && (r.Err? ==> r == Err(AfterIDDisappeared(c.value)))
    ensures r.Ok? && q.limit.Some? ==> |r.value| <= q.limit.value
    ensures r.Ok? ==> exists page :: IsEventPage(s, q, page, r.value)
  {
    var c := CursorOf(q.afterID);
    EventCursorSelected(s, q, if c.Some? then c.value else "");
    var page :- ListDocuments(s.events, scan, EventListing(q), UsesOrderedIDIndex(q.filter), PageRequest(q.afterID, q.limit));
    EventPageIs(s, q, page);
    Ok(EventsOf(page))
  }

  // ---------------------------------------------------------------------------
  // modifyEntities

  /** No two entries share an ID, as in a JS `Map`. */
  predicate DistinctIDs(entries: seq<(EntityID, EntityRecord)>) {
    forall i, j :: 0 <= i < j < |entries| ==> entries[i].0 != entries[j].0
  }

  /** The transformer's output: a map from entity ID to new record, in iteration order. */
  type Entries = entries: seq<(EntityID, EntityRecord)> | DistinctIDs(entries)

  function EntryIDs(entries: seq<(EntityID, EntityRecord)>): set<EntityID> {
    set e | e in entries :: e.0
  }

  /** The orderedIDs of the entity documents that were read, keyed by their own entity IDs. */
  function OrderedIDsRead(s: Store, ids: seq<EntityID>): (r: map<EntityID, OrderedID>)
    ensures WellKeyed(s.entities, EntityIDOf) ==>
      && (forall k :: k in r <==> k in ids && k in s.entities)
      && (forall k :: k in r ==> r[k] == s.entities[k].orderedID)
  {
    var r := KeyedByOwnID(Fetch(s.entities, ids), EntityIDOf, EntityOrderedIDOf);
    KeyedLookup(s.entities, ids, EntityIDOf, EntityOrderedIDOf);
    r
  }

  /**
   * The write loop of `modifyEntities`, as written: each entry is stored under
   * its ID, keeping the orderedID read for that ID or else minting a fresh one.
   * The mapper's component-less guard never fires, so the loop never fails.
   */
  function WriteEntries(s: Store, read: map<EntityID, OrderedID>, entries: seq<(EntityID, EntityRecord)>): (r: Result<Store>)
    ensures r.Ok?
    decreases |entries|
  {
    if |entries| == 0 then Ok(s)
    else
      var (id, rec) := entries[0];
      var (orderedID, generator) := if id in read then (read[id], s.generator) else Mint(s.generator);
      var doc := DocumentFromRecordAsWritten(rec, orderedID).value;
      WriteEntries(Store(s.entities[id := doc], s.events, generator), read, entries[1..])
  }

  /**
   * The write loop as evidently intended: the same, except that a task with no
   * components aborts the transaction.
   */
  function WriteEntriesIntended(s: Store, read: map<EntityID, OrderedID>, entries: seq<(EntityID, EntityRecord)>): Result<Store>
    decreases |entries|
  {
    if |entries| == 0 then Ok(s)
    else
      var (id, rec) := entries[0];
      var (orderedID, generator) := if id in read then (read[id], s.generator) else Mint(s.generator);
      var doc :- DocumentFromRecord(rec, orderedID);
      WriteEntriesIntended(Store(s.entities[id := doc], s.events, generator), read, entries[1..])
  }

  /**
   * `s2` is `s1` with exactly `entries` written: the events, and the entity
   * documents not named by an entry, are unchanged, and each entry's document
   * holds the entry's record with a consistent derived field.
   */
  ghost predicate WritesExactly(s1: Store, s2: Store, entries: seq<(EntityID, EntityRecord)>) {
    && s2.events == s1.events
    && (forall k :: k in s2.entities <==> k in s1.entities || k in EntryIDs(entries))
    && (forall k :: k in s1.entities && k !in EntryIDs(entries) ==> s2.entities[k] == s1.entities[k])
    && (forall i :: 0 <= i < |entries| ==>
          && HoldsRecord(s2.entities[entries[i].0], entries[i].1, s2.entities[entries[i].0].orderedID)
          && DerivedFieldConsistent(s2.entities[entries[i].0]))
  }

  /**
   * The orderedIDs the write loop assigns: an ID that was read keeps its
   * orderedID; every other entry gets one minted by this call, and the minted
   * ones increase in iteration order.
   */
  ghost predicate AssignsOrderedIDs(s1: Store, s2: Store, read: map<EntityID, OrderedID>, entries: seq<(EntityID, EntityRecord)>)
    requires forall i :: 0 <= i < |entries| ==> entries[i].0 in s2.entities
  {
    && s1.generator.last <= s2.generator.last
    && (forall i :: 0 <= i < |entries| && entries[i].0 in read ==>
          s2.entities[entries[i].0].orderedID == read[entries[i].0])
    && (forall i :: 0 <= i < |entries| && entries[i].0 !in read ==>
          s1.generator.last < s2.entities[entries[i].0].orderedID <= s2.generator.last)
    && (forall i, j :: 0 <= i < j < |entries| && entries[i].0 !in read && entries[j].0 !in read ==>
          s2.entities[entries[i].0].orderedID < s2.entities[entries[j].0].orderedID)
  }

  /** Some entry holds a task with no components. */
  ghost predicate HasComponentlessEntry(entries: seq<(EntityID, EntityRecord)>) {
    exists i :: 0 <= i < |entries| && IsComponentless(entries[i].1.entity)
  }

  /** Some entry holds a task with no components iff the first does or some later one does. */
  lemma ComponentlessEntrySplit(entries: seq<(EntityID, EntityRecord)>)
    requires |entries| > 0
    ensures HasComponentlessEntry(entries) <==>
      IsComponentless(entries[0].1.entity) || HasComponentlessEntry(entries[1..])
  {
  }

  /** The intended loop fails, with a component-less-entity error, exactly when some entry is a task with no components. */
  lemma {:induction false} WriteEntriesFails(s: Store, read: map<EntityID, OrderedID>, entries: seq<(EntityID, EntityRecord)>)
    ensures var r := WriteEntriesIntended(s, read, entries);
      && (r.Err? <==> HasComponentlessEntry(entries))
      && (r.Err? ==> r.error.ComponentlessEntity?)
    decreases |entries|
  {
    if |entries| > 0 {
      var (id, rec) := entries[0];
      var (orderedID, generator) := if id in read then (read[id], s.generator) else Mint(s.generator);
      var doc := DocumentFromRecord(rec, orderedID);
      ComponentlessEntrySplit(entries);
      if doc.Ok? {
        WriteEntriesFails(Store(s.entities[id := doc.value], s.events, generator), read, entries[1..]);
      }
    }
  }

  /** Without component-less tasks among the entries, the intended loop writes what the loop as written writes. */
  lemma {:induction false} WriteEntriesIntendedAgrees(s: Store, read: map<EntityID, OrderedID>, entries: seq<(EntityID, EntityRecord)>)
    ensures !HasComponentlessEntry(entries) ==> WriteEntriesIntended(s, read, entries) == WriteEntries(s, read, entries)
    decreases |entries|
  {
    if |entries| > 0 && !HasComponentlessEntry(entries) {
      var (id, rec) := entries[0];
      var (orderedID, generator) := if id in read then (read[id], s.generator) else Mint(s.generator);
      ComponentlessEntrySplit(entries);
      AsWrittenAgreesWithIntended(rec, orderedID);
      var doc := DocumentFromRecord(rec, orderedID).value;
      WriteEntriesIntendedAgrees(Store(s.entities[id := doc], s.events, generator), read, entries[1..]);
    }
  }

  /** Writing the first entry, then the rest, writes exactly all of them. */
  lemma WritesExactlyStep(s: Store, s1: Store, s2: Store, entries: seq<(EntityID, EntityRecord)>, doc: EntityDocument)
    requires |entries| > 0 && DistinctIDs(entries)
    requires s1.entities == s.entities[entries[0].0 := doc] && s1.events == s.events
    requires HoldsRecord(doc, entries[0].1, doc.orderedID) && DerivedFieldConsistent(doc)
    requires WritesExactly(s1, s2, entries[1..])
    ensures WritesExactly(s, s2, entries)
  {
  }

  /** With distinct IDs, writing the rest of the entries leaves the first entry's document in place. */
  lemma FirstEntryKept(s1: Store, s2: Store, entries: seq<(EntityID, EntityRecord)>, doc: EntityDocument)
    requires |entries| > 0 && DistinctIDs(entries)
    requires entries[0].0 in s1.entities && s1.entities[entries[0].0] == doc
    requires WritesExactly(s1, s2, entries[1..])
    ensures entries[0].0 in s2.entities && s2.entities[entries[0].0] == doc
  {
    var rest := entries[1..];
    forall i | 0 <= i < |rest|
      ensures rest[i].0 != entries[0].0
    {
      assert rest[i] == entries[i + 1];
    }
  }

  /** Assigning the first entry's orderedID, then the rest's, assigns them all as promised. */
  lemma AssignsStep(s: Store, s1: Store, s2: Store, read: map<EntityID, OrderedID>, entries: seq<(EntityID, EntityRecord)>, doc: EntityDocument)
    requires |entries| > 0
    requires entries[0].0 in read ==> doc.orderedID == read[entries[0].0] && s1.generator == s.generator
    requires entries[0].0 !in read ==> doc.orderedID == s1.generator.last && s.generator.last < s1.generator.last
    requires forall i :: 0 <= i < |entries| ==> entries[i].0 in s2.entities
    requires s2.entities[entries[0].0] == doc
    requires AssignsOrderedIDs(s1, s2, read, entries[1..])
    ensures AssignsOrderedIDs(s, s2, read, entries)
  {
    var rest := entries[1..];
    forall i | 1 <= i < |entries|
      ensures entries[i] == rest[i - 1]
    {
    }
  }

  lemma {:induction false} WriteEntriesWrites(s: Store, read: map<EntityID, OrderedID>, entries: seq<(EntityID, EntityRecord)>)
    requires DistinctIDs(entries)
    ensures var r := WriteEntries(s, read, entries);
      r.Ok? ==> WritesExactly(s, r.value, entries) && AssignsOrderedIDs(s, r.value, read, entries)
    decreases |entries|
  {
    var r := WriteEntries(s, read, entries);
    if |entries| > 0 && r.Ok? {
      var (id, rec) := entries[0];
      var (orderedID, generator) := if id in read then (read[id], s.generator) else Mint(s.generator);
      var doc := DocumentFromRecordAsWritten(rec, orderedID).value;
      var s1 := Store(s.entities[id := doc], s.events, generator);
      var rest := entries[1..];
      assert r == WriteEntries(s1, read, rest);
      assert DistinctIDs(rest) by {
        forall i, j | 0 <= i < j < |rest| ensures rest[i].0 != rest[j].0 {
          assert rest[i] == entries[i + 1] && rest[j] == entries[j + 1];
        }
      }
      WriteEntriesWrites(s1, read, rest);
      WritesExactlyStep(s, s1, r.value, entries, doc);
      FirstEntryKept(s1, r.value, entries, doc);
      AssignsStep(s, s1, r.value, read, entries, doc);
    }
  }

  /** A write of exactly `entries` stores each component-less task with an infinite minimum due timestamp. */
  lemma ComponentlessStoredInfinite(s1: Store, s2: Store, entries: seq<(EntityID, EntityRecord)>)
    requires WritesExactly(s1, s2, entries)
    ensures forall i :: 0 <= i < |entries| && IsComponentless(entries[i].1.entity) ==>
      s2.entities[entries[i].0].minimumDueTimestampMillis == Some(PositiveInfinity)
  {
  }

  /** The transaction read an existing document for entity `k`. */
  predicate WasRead(s: Store, ids: seq<EntityID>, k: EntityID) {
    k in ids && k in s.entities
  }

  /**
   * The orderedIDs `modifyEntities` promises: an entity that existed and was
   * read keeps its orderedID; every other entry gets a fresh one, larger than
   * any the generator had issued, the fresh ones increasing in iteration order.
   */
  ghost predicate KeepsReadOrMints(s: Store, s2: Store, ids: seq<EntityID>, entries: seq<(EntityID, EntityRecord)>)
    requires forall i :: 0 <= i < |entries| ==> entries[i].0 in s2.entities
  {
    && s.generator.last <= s2.generator.last
    && (forall i :: 0 <= i < |entries| && WasRead(s, ids, entries[i].0) ==>
          s2.entities[entries[i].0].orderedID == s.entities[entries[i].0].orderedID)
    && (forall i :: 0 <= i < |entries| && !WasRead(s, ids, entries[i].0) ==>
          s.generator.last < s2.entities[entries[i].0].orderedID <= s2.generator.last)
    && (forall i, j :: 0 <= i < j < |entries| && !WasRead(s, ids, entries[i].0) && !WasRead(s, ids, entries[j].0) ==>
          s2.entities[entries[i].0].orderedID < s2.entities[entries[j].0].orderedID)
  }

  /**
   * Under own-ID keying, the orderedIDs read are exactly those of the entities
   * that were read, so the loop keeps theirs and mints the rest.
   */
  lemma AssignsFromRead(s: Store, s2: Store, ids: seq<EntityID>, entries: seq<(EntityID, EntityRecord)>)
    requires forall i :: 0 <= i < |entries| ==> entries[i].0 in s2.entities
    requires AssignsOrderedIDs(s, s2, OrderedIDsRead(s, ids), entries)
    ensures WellKeyed(s.entities, EntityIDOf) ==> KeepsReadOrMints(s, s2, ids, entries)
  {
  }

  /**
   * `modifyEntities`: read the requested entities, hand their records to the
   * transformer, and write exactly the entries it returns. An entity that
   * existed and was read keeps its orderedID; every other written entity gets
   * a fresh one, larger than any the generator had issued. The transformer is
   * total here, and the mapper as written never throws, so the transaction
   * never fails: a task with no components is stored with an infinite minimum
   * due timestamp.
   */
  function ModifyEntities(s: Store, ids: seq<EntityID>, transformer: map<EntityID, EntityRecord> -> Entries): (r: Result<Store>)
    ensures r.Ok?
    ensures WritesExactly(s, r.value, transformer(GetEntities(s, ids)))
    ensures var entries := transformer(GetEntities(s, ids));
      forall i :: 0 <= i < |entries| && IsComponentless(entries[i].1.entity) ==>
        r.value.entities[entries[i].0].minimumDueTimestampMillis == Some(PositiveInfinity)
    ensures WellKeyed(s.entities, EntityIDOf) ==>
      KeepsReadOrMints(s, r.value, ids, transformer(GetEntities(s, ids)))
  {
    var entries := transformer(GetEntities(s, ids));
    var read := OrderedIDsRead(s, ids);
    var r := WriteEntries(s, read, entries);
    WriteEntriesWrites(s, read, entries);
    ComponentlessStoredInfinite(s, r.value, entries);
    AssignsFromRead(s, r.value, ids, entries);
    r
  }

  /**
   * `modifyEntities` as evidently intended: the transaction fails, writing
   * nothing, exactly when some entry is a task with no components; otherwise
   * it writes what the code as written writes, and no written document holds
   * an infinite minimum due timestamp.
   */
  function ModifyEntitiesIntended(s: Store, ids: seq<EntityID>, transformer: map<EntityID, EntityRecord> -> Entries): (r: Result<Store>)
    ensures var entries := transformer(GetEntities(s, ids));
      && (r.Err? <==> HasComponentlessEntry(entries))
      && (r.Err? ==> r.error.ComponentlessEntity?)
      && (r.Ok? ==> r == ModifyEntities(s, ids, transformer))
    ensures var entries := transformer(GetEntities(s, ids));
      r.Ok? ==> forall i :: 0 <= i < |entries| ==>
        r.value.entities[entries[i].0].minimumDueTimestampMillis != Some(PositiveInfinity)
  {
    var entries := transformer(GetEntities(s, ids));
    var read := OrderedIDsRead(s, ids);
    WriteEntriesFails(s, read, entries);
    WriteEntriesIntendedAgrees(s, read, entries);
    WriteEntriesWrites(s, read, entries);
    WriteEntriesIntended(s, read, entries)
  }

  // ---------------------------------------------------------------------------
  // putEvents

  /**
   * The create loop of `putEvents`: an event whose document existed when the
   * transaction read it is skipped; otherwise its document is created with a
   * fresh orderedID. A create of a document that this loop already created
   * fails its precondition and aborts the transaction.
   */
  function CreateAbsent(read: map<EventID, EventDocument>, s: Store, events: seq<Event>): (r: Result<Store>)
    ensures r.Err? ==> r.error.AlreadyExists?
    ensures r.Ok? ==>
      && r.value.entities == s.entities
      && s.generator.last <= r.value.generator.last
      && (forall k :: k in s.events ==> k in r.value.events && r.value.events[k] == s.events[k])
    decreases |events|
  {
    if |events| == 0 then Ok(s)
    else
      var e := events[0];
      if e.id in read then CreateAbsent(read, s, events[1..])
      else if e.id in s.events then Err(AlreadyExists(e.id))
      else
        var (orderedID, generator) := Mint(s.generator);
        CreateAbsent(read, Store(s.entities, s.events[e.id := EventDocument(orderedID, e)], generator), events[1..])
  }

  /**
   * The create at position `i` collides: its event was not stored when the
   * transaction read the collection, yet its document already exists, either
   * created earlier by this loop (`created`) or by an earlier event with the
   * same ID.
   */
  ghost predicate CollidesAt(read: map<EventID, EventDocument>, created: set<EventID>, events: seq<Event>, i: int)
    requires 0 <= i < |events|
  {
    && events[i].id !in read
    && (events[i].id in created || exists j :: 0 <= j < i && events[j].id == events[i].id)
  }

  /** Two of `events` share an ID that is not stored in `read`. */
  ghost predicate HasRepeatedNewID(read: map<EventID, EventDocument>, events: seq<Event>) {
    exists i :: 0 <= i < |events| && CollidesAt(read, {}, events, i)
  }

  function EventIDs(events: seq<Event>): set<EventID> {
    set e | e in events :: e.id
  }

  /**
   * `s2` is `s1` with the events not yet stored created and nothing else
   * touched: entities are unchanged, existing event documents are never
   * overwritten, and every new document holds its event under a fresh
   * orderedID, the fresh ones increasing in the order of `events`.
   */
  ghost predicate CreatesAbsent(s1: Store, s2: Store, events: seq<Event>) {
    && s2.entities == s1.entities
    && s1.generator.last <= s2.generator.last
    && (forall k :: k in s2.events <==> k in s1.events || k in EventIDs(events))
    && (forall k :: k in s1.events ==> s2.events[k] == s1.events[k])
    && (forall i :: 0 <= i < |events| && events[i].id !in s1.events ==>
          && s2.events[events[i].id].event == events[i]
          && s1.generator.last < s2.events[events[i].id].orderedID <= s2.generator.last)
    && (forall i, j :: 0 <= i < j < |events| && events[i].id !in s1.events && events[j].id !in s1.events ==>
          s2.events[events[i].id].orderedID < s2.events[events[j].id].orderedID)
  }

  /**
   * Skipping or creating the first event shifts the collisions of the rest by
   * one position; `created1` is what has been created once the first event is
   * handled.
   */
  lemma CollisionsShift(read: map<EventID, EventDocument>, created: set<EventID>, created1: set<EventID>, events: seq<Event>)
    requires |events| > 0
    requires events[0].id in read ==> created1 == created
    requires events[0].id !in read ==> created1 == created + {events[0].id}
    requires !CollidesAt(read, created, events, 0)
    ensures (exists i :: 0 <= i < |events| && CollidesAt(read, created, events, i)) <==>
      (exists i :: 0 <= i < |events| - 1 && CollidesAt(read, created1, events[1..], i))
  {
    var rest := events[1..];
    forall i | 1 <= i < |events|
      ensures CollidesAt(read, created, events, i) <==> CollidesAt(read, created1, rest, i - 1)
    {
      assert rest[i - 1] == events[i];
      if events[i].id == events[0].id {
        assert 0 < i;
      } else {
        if CollidesAt(read, created, events, i) && events[i].id !in created {
          var j :| 0 <= j < i && events[j].id == events[i].id;
          assert rest[j - 1] == events[j];
        }
        if CollidesAt(read, created1, rest, i - 1) && events[i].id !in created1 {
          var j :| 0 <= j < i - 1 && rest[j].id == rest[i - 1].id;
          assert events[j + 1] == rest[j];
        }
      }
    }
    if exists i :: 0 <= i < |events| && CollidesAt(read, created, events, i) {
      var i :| 0 <= i < |events| && CollidesAt(read, created, events, i);
      assert CollidesAt(read, created1, rest, i - 1);
    }
    if exists i :: 0 <= i < |rest| && CollidesAt(read, created1, rest, i) {
      var i :| 0 <= i < |rest| && CollidesAt(read, created1, rest, i);
      assert CollidesAt(read, created, events, i + 1);
    }
  }

  lemma {:induction false} CreateAbsentFails(read: map<EventID, EventDocument>, s: Store, events: seq<Event>)
    requires read.Keys <= s.events.Keys
    ensures var r := CreateAbsent(read, s, events);
      && (r.Err? <==> exists i :: 0 <= i < |events| && CollidesAt(read, s.events.Keys - read.Keys, events, i))
      && (r.Err? ==> r.error.AlreadyExists?)
    decreases |events|
  {
    if |events| > 0 {
      var e := events[0];
      var created := s.events.Keys - read.Keys;
      if e.id in read {
        CreateAbsentFails(read, s, events[1..]);
        CollisionsShift(read, created, created, events);
      } else if e.id in s.events {
        assert CollidesAt(read, created, events, 0);
      } else {
        var (orderedID, generator) := Mint(s.generator);
        var s1 := Store(s.entities, s.events[e.id := EventDocument(orderedID, e)], generator);
        assert CreateAbsent(read, s, events) == CreateAbsent(read, s1, events[1..]);
        CreateAbsentFails(read, s1, events[1..]);
        assert s1.events.Keys - read.Keys == created + {e.id};
        CollisionsShift(read, created, created + {e.id}, events);
      }
    }
  }

  lemma EventIDsSplit(events: seq<Event>)
    requires |events| > 0
    ensures EventIDs(events) == {events[0].id} + EventIDs(events[1..])
  {
  }

  /** Skipping a stored first event, then handling the rest, creates what is absent. */
  lemma CreatesAbsentSkipStep(s: Store, s2: Store, events: seq<Event>)
    requires |events| > 0 && events[0].id in s.events
    requires CreatesAbsent(s, s2, events[1..])
    ensures CreatesAbsent(s, s2, events)
  {
  }

  /** Creating the absent first event, then handling the rest, creates what is absent. */
  lemma CreatesAbsentCreateStep(s: Store, s1: Store, s2: Store, events: seq<Event>)
    requires |events| > 0 && events[0].id !in s.events
    requires forall i :: 1 <= i < |events| ==> events[i].id != events[0].id
    requires s1.entities == s.entities
    requires s1.events == s.events[events[0].id := EventDocument(s1.generator.last, events[0])]
    requires s.generator.last < s1.generator.last
    requires CreatesAbsent(s1, s2, events[1..])
    ensures CreatesAbsent(s, s2, events)
  {
    var e := events[0];
    var rest := events[1..];
    EventIDsSplit(events);
    assert s2.events[e.id] == EventDocument(s1.generator.last, e);
    forall k | k in s.events
      ensures s2.events[k] == s.events[k]
    {
      assert k != e.id && k in s1.events;
    }
    forall i | 0 <= i < |events| && events[i].id !in s.events
      ensures s2.events[events[i].id].event == events[i]
      ensures s.generator.last < s2.events[events[i].id].orderedID <= s2.generator.last
    {
      if i > 0 {
        assert events[i] == rest[i - 1];
        assert events[i].id !in s1.events;
      }
    }
    CreatedInOrderStep(s, s1, s2, events);
  }

  /** The first event's fresh orderedID lies below those minted for the rest, so the order holds for all. */
  lemma CreatedInOrderStep(s: Store, s1: Store, s2: Store, events: seq<Event>)
    requires |events| > 0 && events[0].id !in s.events
    requires forall i :: 1 <= i < |events| ==> events[i].id != events[0].id
    requires s1.events == s.events[events[0].id := EventDocument(s1.generator.last, events[0])]
    requires CreatesAbsent(s1, s2, events[1..])
    ensures forall i, j :: 0 <= i < j < |events| && events[i].id !in s.events && events[j].id !in s.events ==>
      s2.events[events[i].id].orderedID < s2.events[events[j].id].orderedID
  {
    var rest := events[1..];
    forall i, j | 0 <= i < j < |events| && events[i].id !in s.events && events[j].id !in s.events
      ensures s2.events[events[i].id].orderedID < s2.events[events[j].id].orderedID
    {
      assert events[j] == rest[j - 1];
      assert events[j].id !in s1.events;
      if i > 0 {
        assert events[i] == rest[i - 1];
        assert events[i].id !in s1.events;
      }
    }
  }

  lemma {:induction false} CreateAbsentWrites(read: map<EventID, EventDocument>, s: Store, events: seq<Event>)
    requires read.Keys <= s.events.Keys
    ensures var r := CreateAbsent(read, s, events);
      r.Ok? ==> CreatesAbsent(s, r.value, events)
    decreases |events|
  {
    var r := CreateAbsent(read, s, events);
    if |events| > 0 && r.Ok? {
      var e := events[0];
      if e.id in read {
        CreateAbsentWrites(read, s, events[1..]);
        CreatesAbsentSkipStep(s, r.value, events);
      } else {
        var (orderedID, generator) := Mint(s.generator);
        var s1 := Store(s.entities, s.events[e.id := EventDocument(orderedID, e)], generator);
        assert r == CreateAbsent(read, s1, events[1..]);
        CreateAbsentWrites(read, s1, events[1..]);
        CreateAbsentFails(read, s, events);
        forall i | 1 <= i < |events|
          ensures events[i].id != e.id
        {
          if events[i].id == e.id {
            assert CollidesAt(read, s.events.Keys - read.Keys, events, i);
          }
        }
        CreatesAbsentCreateStep(s, s1, r.value, events);
      }
    }
  }

  /**
   * `putEvents`: create a document for every event whose document does not
   * exist yet, never overwriting one that does. The transaction fails, writing
   * nothing, exactly when two of the events share an ID not yet stored.
   */
  function PutEvents(s: Store, events: seq<Event>): (r: Result<Store>)
    ensures r.Err? <==> HasRepeatedNewID(s.events, events)
    ensures r.Err? ==> r.error.AlreadyExists?
    ensures r.Ok? ==> CreatesAbsent(s, r.value, events)
  {
    CreateAbsentFails(s.events, s, events);
    CreateAbsentWrites(s.events, s, events);
    assert s.events.Keys - s.events.Keys == {};
    CreateAbsent(s.events, s, events)
  }
}
