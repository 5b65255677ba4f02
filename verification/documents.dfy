/**
 * The document mapper: entities, entity records and events, the documents they
 * are persisted as, the derived `minimumDueTimestampMillis` index field, and the
 * maps that batched lookups return.
 */
module Documents {

  import opened Results
  import opened OrderedIDs

  type EntityID = string
  type EventID = string

  datatype EntityType = TaskType | AttachmentReferenceType

  /** One entry of a task's `componentStates` (the order in which the object's values enumerate). */
  datatype ComponentState = ComponentState(componentID: string, dueTimestampMillis: int)

  /** The two entity variants. Fields the backend never inspects are left out. */
  datatype Entity =
    | Task(id: EntityID, createdAtTimestampMillis: int, componentStates: seq<ComponentState>)
    | AttachmentReference(id: EntityID, createdAtTimestampMillis: int, mimeType: string)
  {
    function Type(): EntityType {
      match this
      case Task(_, _, _) => TaskType
      case AttachmentReference(_, _, _) => AttachmentReferenceType
    }
  }

  /** An entity snapshot plus the provenance of the last event folded into it. */
  datatype EntityRecord = EntityRecord(entity: Entity, lastEventID: EventID, lastEventTimestampMillis: int)

  /** The JS numbers that `Math.min` over integer timestamps can produce. */
  datatype JSNumber = Finite(value: int) | PositiveInfinity | NaN

  /**
   * A stored entity document. `minimumDueTimestampMillis` is present exactly on
   * task documents; attachment-reference documents carry no derived field.
   */
  datatype EntityDocument = EntityDocument(
    orderedID: OrderedID,
    entity: Entity,
    lastEventID: EventID,
    lastEventTimestampMillis: int,
    minimumDueTimestampMillis: Option<JSNumber>)

  datatype Event = Event(id: EventID, entityID: EntityID, eventType: string, timestampMillis: int)

  datatype EventDocument = EventDocument(orderedID: OrderedID, event: Event)

  /** The due timestamps of a task's components, in enumeration order. */
  function DueTimestamps(cs: seq<ComponentState>): seq<int> {
    seq(|cs|, i requires 0 <= i < |cs| => cs[i].dueTimestampMillis)
  }

  /** `m` is the least element of `xs`: it occurs in `xs` and no element is smaller. */
  ghost predicate IsLeast(m: int, xs: seq<int>) {
    && (exists i :: 0 <= i < |xs| && xs[i] == m)
    && (forall i :: 0 <= i < |xs| ==> m <= xs[i])
  }

  /** The least element, absent exactly when there are no elements. */
  function Minimum(xs: seq<int>): (m: Option<int>)
    ensures m.None? <==> |xs| == 0
    ensures m.Some? ==> IsLeast(m.value, xs)
  {
    if |xs| == 0 then None
    else
      match Minimum(xs[1..])
      case None => Some(xs[0])
      case Some(rest) =>
        assert forall i :: 1 <= i < |xs| ==> xs[i] == xs[1..][i - 1];
        Some(if xs[0] <= rest then xs[0] else rest)
  }

  /** JS `Math.min(...xs)`: `Infinity` for no arguments, otherwise the least argument. */
  function MathMin(xs: seq<int>): (r: JSNumber)
    ensures r == PositiveInfinity <==> |xs| == 0
    ensures r.Finite? ==> IsLeast(r.value, xs)
    ensures !r.NaN?
  {
    match Minimum(xs)
    case None => PositiveInfinity
    case Some(m) => Finite(m)
  }

  predicate IsNaN(n: JSNumber) {
    n.NaN?
  }

  predicate IsComponentless(e: Entity) {
    e.Task? && |e.componentStates| == 0
  }

  /**
   * The derived field agrees with the entity as the mapper computes it: a task
   * document stores the least due timestamp of its components, or Infinity
   * when it has none; an attachment-reference document stores nothing.
   */
  ghost predicate DerivedFieldConsistent(d: EntityDocument) {
    match d.entity
    case Task(_, _, cs) =>
      && d.minimumDueTimestampMillis.Some?
      && (|cs| == 0 ==> d.minimumDueTimestampMillis.value == PositiveInfinity)
      && (|cs| > 0 ==>
            && d.minimumDueTimestampMillis.value.Finite?
            && IsLeast(d.minimumDueTimestampMillis.value.value, DueTimestamps(cs)))
    case AttachmentReference(_, _, _) =>
      d.minimumDueTimestampMillis.None?
  }

  /** The document holds exactly what the record says, under the given orderedID. */
  predicate HoldsRecord(d: EntityDocument, rec: EntityRecord, orderedID: OrderedID) {
    && d.orderedID == orderedID
    && d.entity == rec.entity
    && d.lastEventID == rec.lastEventID
    && d.lastEventTimestampMillis == rec.lastEventTimestampMillis
  }

  /**
   * `getEntityDocumentFromRecord` exactly as written: the guard tests `isNaN` on
   * `Math.min(...)`, which over integer due timestamps is never NaN, so a task
   * with no components is stored with `minimumDueTimestampMillis = Infinity`.
   */
  function DocumentFromRecordAsWritten(rec: EntityRecord, orderedID: OrderedID): (r: Result<EntityDocument>)
    ensures r.Ok?
    ensures HoldsRecord(r.value, rec, orderedID)
    ensures DerivedFieldConsistent(r.value)
    ensures IsComponentless(rec.entity) ==> r.value.minimumDueTimestampMillis == Some(PositiveInfinity)
  {
    match rec.entity
    case Task(id, _, cs) =>
      var m := MathMin(DueTimestamps(cs));
      if IsNaN(m) then Err(ComponentlessEntity(id))
      else Ok(EntityDocument(orderedID, rec.entity, rec.lastEventID, rec.lastEventTimestampMillis, Some(m)))
    case AttachmentReference(_, _, _) =>
      Ok(EntityDocument(orderedID, rec.entity, rec.lastEventID, rec.lastEventTimestampMillis, None))
  }

  /**
   * `getEntityDocumentFromRecord` as intended: a component-less task is rejected;
   * every other record is stored whole, with the derived field computed.
   */
  function DocumentFromRecord(rec: EntityRecord, orderedID: OrderedID): (r: Result<EntityDocument>)
    ensures r.Err? <==> IsComponentless(rec.entity)
    ensures r.Err? ==> r.error == ComponentlessEntity(rec.entity.id)
    ensures r.Ok? ==> HoldsRecord(r.value, rec, orderedID)
    ensures r.Ok? ==> DerivedFieldConsistent(r.value)
    ensures r.Ok? ==> r.value.minimumDueTimestampMillis != Some(PositiveInfinity)
  {
    match rec.entity
    case Task(id, _, cs) =>
      (match Minimum(DueTimestamps(cs))
       case None => Err(ComponentlessEntity(id))
       case Some(m) =>
         Ok(EntityDocument(orderedID, rec.entity, rec.lastEventID, rec.lastEventTimestampMillis, Some(Finite(m)))))
    case AttachmentReference(_, _, _) =>
      Ok(EntityDocument(orderedID, rec.entity, rec.lastEventID, rec.lastEventTimestampMillis, None))
  }

  /**
   * `getEntityRecordFromFirestoreDoc`: drop the orderedID and the derived
   * field. Nothing else is lost: mapping the record back under the same
   * orderedID rebuilds any consistent document.
   */
  function RecordOf(d: EntityDocument): (r: EntityRecord)
    ensures HoldsRecord(d, r, d.orderedID)
    ensures DerivedFieldConsistent(d) ==> DocumentFromRecordAsWritten(r, d.orderedID) == Ok(d)
  {
    EntityRecord(d.entity, d.lastEventID, d.lastEventTimestampMillis)
  }

  /** A consistent document is determined by its record and its orderedID. */
  lemma ConsistentDocumentDetermined(d1: EntityDocument, d2: EntityDocument)
    requires DerivedFieldConsistent(d1) && DerivedFieldConsistent(d2)
    requires RecordOf(d1) == RecordOf(d2) && d1.orderedID == d2.orderedID
    ensures d1 == d2
  {
  }

  /** The corrected mapper rebuilds every consistent document except a component-less task. */
  lemma DocumentRecordRoundTrip(d: EntityDocument)
    requires DerivedFieldConsistent(d) && !IsComponentless(d.entity)
    ensures DocumentFromRecord(RecordOf(d), d.orderedID) == Ok(d)
  {
  }

  /** Away from component-less tasks, the as-written and the intended mapping agree. */
  lemma AsWrittenAgreesWithIntended(rec: EntityRecord, orderedID: OrderedID)
    requires !IsComponentless(rec.entity)
    ensures DocumentFromRecordAsWritten(rec, orderedID) == DocumentFromRecord(rec, orderedID)
  {
  }

  /** The input on which the two disagree: a task with no components is accepted as written. */
  lemma ComponentlessTaskAcceptedAsWritten()
    ensures var rec := EntityRecord(Task("t1", 0, []), "e1", 100);
      && DocumentFromRecordAsWritten(rec, 1).Ok?
      && DocumentFromRecordAsWritten(rec, 1).value.minimumDueTimestampMillis == Some(PositiveInfinity)
      && DocumentFromRecord(rec, 1) == Err(ComponentlessEntity("t1"))
  {
  }

  /** `docs[i]` is a present document whose own ID is `k`. */
  predicate HasIDAt<D>(docs: seq<Option<D>>, i: int, idOf: D -> string, k: string)
    requires 0 <= i < |docs|
  {
    docs[i].Some? && idOf(docs[i].value) == k
  }

  /** `r` holds exactly the documents of `docs` keyed by their own IDs, the last one winning. */
  ghost predicate KeyedByOwnIDSpec<D, V>(docs: seq<Option<D>>, idOf: D -> string, valueOf: D -> V, r: map<string, V>) {
    && (forall k :: k in r <==> exists i :: 0 <= i < |docs| && HasIDAt(docs, i, idOf, k))
    && (forall k :: k in r ==>
          exists i :: (0 <= i < |docs| && HasIDAt(docs, i, idOf, k) && r[k] == valueOf(docs[i].value)
                       && forall j :: i < j < |docs| ==> !HasIDAt(docs, j, idOf, k)))
  }

  /**
   * The result-map loop of `getEvents` and `getEntityRecordMapFromFirestoreDocs`:
   * absent lookups are skipped, each present document is keyed by its own ID,
   * and a later document with the same ID overwrites an earlier one.
   */
  function KeyedByOwnID<D, V>(docs: seq<Option<D>>, idOf: D -> string, valueOf: D -> V): (r: map<string, V>)
    ensures KeyedByOwnIDSpec(docs, idOf, valueOf, r)
    decreases |docs|
  {
    if |docs| == 0 then map[]
    else
      var n := |docs| - 1;
      var prefix := KeyedByOwnID(docs[..n], idOf, valueOf);
      var r := match docs[n]
        case None => prefix
        case Some(d) => prefix[idOf(d) := valueOf(d)];
      KeyedByOwnIDExtend(docs, idOf, valueOf, prefix, r);
      r
  }

  /** One step of the loop: extending the documents by one extends the map accordingly. */
  lemma KeyedByOwnIDExtend<D, V>(docs: seq<Option<D>>, idOf: D -> string, valueOf: D -> V, prefix: map<string, V>, r: map<string, V>)
    requires |docs| > 0
    requires KeyedByOwnIDSpec(docs[..|docs| - 1], idOf, valueOf, prefix)
    requires docs[|docs| - 1].None? ==> r == prefix
    requires docs[|docs| - 1].Some? ==>
      r == prefix[idOf(docs[|docs| - 1].value) := valueOf(docs[|docs| - 1].value)]
    ensures KeyedByOwnIDSpec(docs, idOf, valueOf, r)
  {
    var n := |docs| - 1;
    var pre := docs[..n];
    assert forall i, k :: 0 <= i < n ==> (HasIDAt(pre, i, idOf, k) <==> HasIDAt(docs, i, idOf, k));
    forall k | k in r
      ensures exists i :: (0 <= i < |docs| && HasIDAt(docs, i, idOf, k) && r[k] == valueOf(docs[i].value)
                           && forall j :: i < j < |docs| ==> !HasIDAt(docs, j, idOf, k))
    {
      if HasIDAt(docs, n, idOf, k) {
        assert r[k] == valueOf(docs[n].value);
      } else {
        assert k in prefix && r[k] == prefix[k];
        var i :| (0 <= i < n && HasIDAt(pre, i, idOf, k) && prefix[k] == valueOf(pre[i].value)
                  && forall j :: i < j < n ==> !HasIDAt(pre, j, idOf, k));
        assert HasIDAt(docs, i, idOf, k) && r[k] == valueOf(docs[i].value);
      }
    }
    forall k | exists i :: 0 <= i < |docs| && HasIDAt(docs, i, idOf, k)
      ensures k in r
    {
      var i :| 0 <= i < |docs| && HasIDAt(docs, i, idOf, k);
      if i < n {
        assert HasIDAt(pre, i, idOf, k);
      }
    }
  }

  /** `getEntityRecordMapFromFirestoreDocs`: the records of the present documents, keyed by their own entity IDs. */
  function RecordMapFromDocuments(docs: seq<Option<EntityDocument>>): (r: map<EntityID, EntityRecord>)
    ensures KeyedByOwnIDSpec(docs, EntityIDOf, RecordOf, r)
  {
    KeyedByOwnID(docs, EntityIDOf, RecordOf)
  }

  function EntityIDOf(d: EntityDocument): EntityID {
    d.entity.id
  }

  function EntityOrderedIDOf(d: EntityDocument): nat {
    d.orderedID
  }

  function EventIDOf(d: EventDocument): EventID {
    d.event.id
  }

  function EventOrderedIDOf(d: EventDocument): nat {
    d.orderedID
  }

  function EventOf(d: EventDocument): Event {
    d.event
  }
}
