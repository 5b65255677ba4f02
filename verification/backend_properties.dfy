/**
 * Properties of the backend across calls: the store invariant that every
 * write preserves, `putEvents` idempotence, read-after-write for
 * `modifyEntities`, and complete enumeration of the event log by paging.
 */
module BackendProperties {

  import opened Results
  import opened OrderedIDs
  import opened Documents
  import opened Paging
  import opened PagingProperties
  import opened FirestoreBackend

  /**
   * The store invariant: every document is stored under its own object's ID,
   * orderedIDs are unique within each collection and no larger than the last
   * one the generator issued, and every entity document's derived field
   * agrees with its entity.
   */
  ghost predicate Valid(s: Store) {
    && WellKeyed(s.entities, EntityIDOf)
    && WellKeyed(s.events, EventIDOf)
    && UniqueOrderedIDs(s.entities, EntityOrderedIDOf)
    && UniqueOrderedIDs(s.events, EventOrderedIDOf)
    && (forall k :: k in s.entities ==> s.entities[k].orderedID <= s.generator.last)
    && (forall k :: k in s.events ==> s.events[k].orderedID <= s.generator.last)
    && (forall k :: k in s.entities ==> DerivedFieldConsistent(s.entities[k]))
  }

  // ---------------------------------------------------------------------------
  // putEvents

  /** A successful `putEvents` keeps the store invariant. */
  lemma PutEventsPreservesValid(s: Store, events: seq<Event>)
    requires Valid(s)
    ensures PutEvents(s, events).Ok? ==> Valid(PutEvents(s, events).value)
  {
  }

  /** When every event is already stored, the create loop writes nothing. */
  lemma {:induction false} CreateAbsentSkipsStored(read: map<EventID, EventDocument>, s: Store, events: seq<Event>)
    requires forall i :: 0 <= i < |events| ==> events[i].id in read
    ensures CreateAbsent(read, s, events) == Ok(s)
    decreases |events|
  {
    if |events| > 0 {
      CreateAbsentSkipsStored(read, s, events[1..]);
    }
  }

  /** Putting the same events a second time changes nothing. */
  lemma PutEventsIdempotent(s: Store, events: seq<Event>)
    requires PutEvents(s, events).Ok?
    ensures var s2 := PutEvents(s, events).value;
      PutEvents(s2, events) == Ok(s2)
  {
    var s2 := PutEvents(s, events).value;
    forall i | 0 <= i < |events|
      ensures events[i].id in s2.events
    {
      assert events[i] in events;
    }
    CreateAbsentSkipsStored(s2.events, s2, events);
  }

  // ---------------------------------------------------------------------------
  // modifyEntities

  /** Every new record is stored under its own entity's ID. */
  ghost predicate EntriesKeyedByEntity(entries: seq<(EntityID, EntityRecord)>) {
    forall i :: 0 <= i < |entries| ==> entries[i].0 == entries[i].1.entity.id
  }

  /** An entry ID has some position in the entries. */
  lemma EntryPosition(entries: seq<(EntityID, EntityRecord)>, k: EntityID) returns (i: nat)
    requires k in EntryIDs(entries)
    ensures i < |entries| && entries[i].0 == k
  {
    var e :| e in entries && e.0 == k;
    i :| i < |entries| && entries[i] == e;
  }

  /**
   * After `modifyEntities` on a valid store, every entity document is keyed by
   * its own ID, consistent, issued by the generator, and an orderedID that
   * was already issued before the call belongs to the document that held it.
   */
  lemma ModifiedDocumentsKeyed(s: Store, ids: seq<EntityID>, transformer: map<EntityID, EntityRecord> -> Entries)
    requires Valid(s)
    requires EntriesKeyedByEntity(transformer(GetEntities(s, ids)))
    ensures var s2 := ModifyEntities(s, ids, transformer).value;
      forall k :: k in s2.entities ==>
        && EntityIDOf(s2.entities[k]) == k
        && s2.entities[k].orderedID <= s2.generator.last
        && DerivedFieldConsistent(s2.entities[k])
        && (k in s.entities && s2.entities[k].orderedID <= s.generator.last ==> s2.entities[k].orderedID == s.entities[k].orderedID)
  {
    var s2 := ModifyEntities(s, ids, transformer).value;
    var entries := transformer(GetEntities(s, ids));
    forall k | k in s2.entities
      ensures EntityIDOf(s2.entities[k]) == k
      ensures s2.entities[k].orderedID <= s2.generator.last
      ensures DerivedFieldConsistent(s2.entities[k])
      ensures k in s.entities && s2.entities[k].orderedID <= s.generator.last ==> s2.entities[k].orderedID == s.entities[k].orderedID
    {
      if k in EntryIDs(entries) {
        var i := EntryPosition(entries, k);
        assert RecordOf(s2.entities[k]) == entries[i].1;
      }
    }
  }

  /**
   * `modifyEntities` keeps the store invariant, provided the
   * transformer files each new record under its own entity's ID.
   */
  lemma ModifyEntitiesPreservesValid(s: Store, ids: seq<EntityID>, transformer: map<EntityID, EntityRecord> -> Entries)
    requires Valid(s)
    requires EntriesKeyedByEntity(transformer(GetEntities(s, ids)))
    ensures Valid(ModifyEntities(s, ids, transformer).value)
  {
    var r := ModifyEntities(s, ids, transformer);
    var s2 := r.value;
    var entries := transformer(GetEntities(s, ids));
    ModifiedDocumentsKeyed(s, ids, transformer);
    forall k1, k2 | k1 in s2.entities && k2 in s2.entities && k1 != k2
      ensures s2.entities[k1].orderedID != s2.entities[k2].orderedID
    {
      var o1 := s2.entities[k1].orderedID;
      var o2 := s2.entities[k2].orderedID;
      if o1 > s.generator.last && o2 > s.generator.last {
        var i := EntryPosition(entries, k1);
        var j := EntryPosition(entries, k2);
        assert i != j;
        assert !WasRead(s, ids, k1) && !WasRead(s, ids, k2);
        if i < j {
          assert o1 < o2;
        } else {
          assert o2 < o1;
        }
      }
    }
  }

  /** Looking up entries written into a store keyed by own IDs returns their records. */
  lemma ReadAfterWrite(s2: Store, entries: seq<(EntityID, EntityRecord)>, lookup: seq<EntityID>)
    requires WellKeyed(s2.entities, EntityIDOf)
    requires forall i :: 0 <= i < |entries| ==>
      entries[i].0 in s2.entities && RecordOf(s2.entities[entries[i].0]) == entries[i].1
    ensures var found := GetEntities(s2, lookup);
      forall i :: 0 <= i < |entries| && entries[i].0 in lookup ==>
        entries[i].0 in found && found[entries[i].0] == entries[i].1
  {
  }

  /** After `modifyEntities`, looking an entry up returns the record the transformer produced. */
  lemma ReadAfterModify(s: Store, ids: seq<EntityID>, transformer: map<EntityID, EntityRecord> -> Entries, lookup: seq<EntityID>)
    requires Valid(s)
    requires EntriesKeyedByEntity(transformer(GetEntities(s, ids)))
    ensures var entries := transformer(GetEntities(s, ids));
      var found := GetEntities(ModifyEntities(s, ids, transformer).value, lookup);
      forall i :: 0 <= i < |entries| && entries[i].0 in lookup ==>
        entries[i].0 in found && found[entries[i].0] == entries[i].1
  {
    var entries := transformer(GetEntities(s, ids));
    var s2 := ModifyEntities(s, ids, transformer).value;
    ModifyEntitiesPreservesValid(s, ids, transformer);
    forall i | 0 <= i < |entries|
      ensures entries[i].0 in s2.entities && RecordOf(s2.entities[entries[i].0]) == entries[i].1
    {
      assert HoldsRecord(s2.entities[entries[i].0], entries[i].1, s2.entities[entries[i].0].orderedID);
    }
    ReadAfterWrite(s2, entries, lookup);
  }

  /** A write of exactly the records read, each keeping its orderedID, leaves the consistent entity documents as they were. */
  lemma WriteBackStep(s: Store, s2: Store, ids: seq<EntityID>, entries: seq<(EntityID, EntityRecord)>)
    requires forall k :: k in s.entities ==> DerivedFieldConsistent(s.entities[k])
    requires forall i :: 0 <= i < |entries| ==>
      WasRead(s, ids, entries[i].0) && entries[i].1 == RecordOf(s.entities[entries[i].0])
    requires WritesExactly(s, s2, entries)
    requires forall i :: 0 <= i < |entries| && WasRead(s, ids, entries[i].0) ==>
      s2.entities[entries[i].0].orderedID == s.entities[entries[i].0].orderedID
    ensures s2.entities == s.entities
  {
    forall k | k in s2.entities
      ensures k in s.entities && s2.entities[k] == s.entities[k]
    {
      if k in EntryIDs(entries) {
        var i := EntryPosition(entries, k);
        assert RecordOf(s2.entities[k]) == RecordOf(s.entities[k]);
        ConsistentDocumentDetermined(s2.entities[k], s.entities[k]);
      }
    }
  }

  /** Writing back unchanged the records that were read leaves every entity document as it was. */
  lemma WriteBackUnchanged(s: Store, ids: seq<EntityID>, transformer: map<EntityID, EntityRecord> -> Entries)
    requires Valid(s)
    requires var entries := transformer(GetEntities(s, ids));
      forall i :: 0 <= i < |entries| ==>
        WasRead(s, ids, entries[i].0) && entries[i].1 == RecordOf(s.entities[entries[i].0])
    ensures ModifyEntities(s, ids, transformer).Ok?
    ensures ModifyEntities(s, ids, transformer).value.entities == s.entities
  {
    WriteBackStep(s, ModifyEntities(s, ids, transformer).value, ids, transformer(GetEntities(s, ids)));
  }

  // ---------------------------------------------------------------------------
  // Paging over the event log

  /** The unfiltered event query: the whole log. */
  function WholeLog(): EventQuery {
    EventQuery(None, None, None)
  }

  /**
   * Paging through the event log with no filter, starting without a cursor
   * and resuming after the last event of each page, returns every stored
   * event document exactly once, in ascending orderedID order.
   */
  lemma EventLogEnumeratedByPaging(s: Store, scan: seq<EventID>, limit: nat, fuel: nat)
    requires Valid(s)
    requires ScanOrder(s.events, scan)
    requires "" !in s.events
    requires 1 <= limit && |scan| <= fuel
    ensures var all := PageChain(s.events, scan, EventListing(WholeLog()), true, limit, None, fuel);
      && all.Ok?
      && StrictlySortedBy(all.value, EventOrderedIDOf)
      && (forall d :: d in all.value <==> d in s.events.Values)
  {
    var L := EventListing(WholeLog());
    ChainedPagesEnumerateAllMatches(s.events, scan, L, true, limit, fuel);
    forall d
      ensures IsMatch(s.events, L.matches, d) <==> d in s.events.Values
    {
      if d in s.events.Values {
        var k :| k in s.events && s.events[k] == d;
      }
    }
  }

  /** On a valid store, an event query whose cursor it selects gives the same page on both paths of `_listDocuments`. */
  lemma EventPathsAgree(s: Store, scan: seq<EventID>, q: EventQuery)
    requires Valid(s)
    requires ScanOrder(s.events, scan)
    requires var c := CursorOf(q.afterID); c.Some? && c.value in s.events ==> EventSelected(q, s.events[c.value])
    ensures var L := EventListing(q);
      var req := PageRequest(q.afterID, q.limit);
      ListDocuments(s.events, scan, L, true, req) == ListDocuments(s.events, scan, L, false, req)
  {
    PathsAgree(s.events, scan, EventListing(q), PageRequest(q.afterID, q.limit));
  }
}
