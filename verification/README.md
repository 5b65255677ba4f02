# Firestore database backend, modelled in Dafny

This project models the in-memory logic of `FirestoreDatabaseBackend`, the
server-side store of an event-sourced system. The store keeps immutable
**events** and mutable **entity** snapshots (tasks and attachment
references), each in its own collection. Every document is tagged with an
**orderedID**, which drives cursor pagination.

Each Firestore transaction is modelled as one atomic step on an immutable
`Store`. A `Store` holds the entity map, the event map and the orderedID
generator. An operation that throws inside its transaction returns an `Err`
and writes nothing.

Modules (one per file):

- `Results` (`results.dfy`): `Option`, `Result` and the error cases the
  backend throws.
- `OrderedIDs` (`ordered_ids.dfy`): the orderedID generator, as an abstract
  counter.
- `Predicates` (`predicates.dfy`): query operators and their meaning, the
  Firestore operators, and `mapQueryPredicateToFirestoreOp`.
- `Documents` (`documents.dfy`): entities, records, events and their
  documents; the derived `minimumDueTimestampMillis`; the document mapper;
  the result maps of batched lookups.
- `Paging` (`paging.dfy`): `_listDocuments`, generic in the document type,
  with its equality (orderedID-index) path and its range path.
- `PagingProperties` (`paging_properties.dfy`):
  - the page each path returns
  - the two paths agree
  - chaining pages enumerates every match exactly once
  - the result does not depend on Firestore's scan order
- `FirestoreBackend` (`backend.dfy`): the store, `getEntities`, `getEvents`,
  `listEntities`, `listEvents`, `modifyEntities` and `putEvents`.
- `BackendProperties` (`backend_properties.dfy`):
  - the store invariant and its preservation
  - `putEvents` idempotence
  - read-after-write and write-back for `modifyEntities`
  - paging over the whole event log

Modelling choices:

- **Generator.** `OrderedIDs.Generator` is an assumption, not verified
  behaviour: `orderedID.ts` is not part of this model. Each mint returns a
  `nat` strictly larger than the last one. The store carries one generator,
  shared by every operation on it (see "## Left out").
- **Scan order.** The order in which Firestore returns a query's documents
  before the backend sorts them is a parameter `scan`. It lists every key of
  the collection once. `PagingProperties.ListingIndependentOfScanOrder` shows
  the page does not depend on it when orderedIDs are unique.
- **Cursor.** `afterID` is tested for JS truthiness, so an empty string means
  "no cursor" (`Paging.CursorOf`).
- **Limit.** A `limit` is a natural number. A `limit` of 0 is taken to return
  no documents on both paths.
- **Sorting.** The in-memory sort is stable and is modelled as insertion sort
  by orderedID. `findIndex` returns the first match (`Paging.IndexOfObject`).
  `slice` clamps its end to the length (`Paging.PageEnd`).
- **Numbers.** JS `Math.min` over the due timestamps is modelled exactly:
  `Documents.JSNumber` has `Finite`, `PositiveInfinity` and `NaN`, and
  `Math.min()` of nothing is `PositiveInfinity`.
- **Component order.** A task's `componentStates` object is modelled as a
  sequence in the order `Object.values` enumerates it.
- **Transformer output.** The `Map` the `modifyEntities` transformer returns
  is a sequence of (ID, record) entries with distinct IDs
  (`FirestoreBackend.Entries`), in iteration order.
- **Filters.** The `where` filters of the list queries are explicit
  predicates on documents:
  - The entity-type filter and the `minimumDueTimestampMillis` filter are in
    `FirestoreBackend.EntitySelected`. Infinity lies above every finite
    number; a document without the field is never selected.
  - The `event.entityID` filter is in `FirestoreBackend.EventSelected`, as a
    lexicographic comparison.

Where the code and the design documentation disagree, the model follows the
code:

- **Repeated new event in one `putEvents` call.** The documentation says that
  inserting the same event twice is harmless even within one call. As
  written, two events with the same new ID each see "no document" in the
  transaction's read and each issue `tx.create`. The second create fails
  Firestore's must-not-exist precondition, so the transaction fails
  (`FirestoreBackend.PutEvents` returns `AlreadyExists`). This relies on
  Firestore checking create preconditions write by write, which is
  Firestore's behaviour and not code in this repository. Across calls,
  `putEvents` is idempotent (`BackendProperties.PutEventsIdempotent`).
- **Which entities keep their orderedID in `modifyEntities`.** The
  documentation says every entity that already existed keeps its orderedID.
  As written, only IDs whose document was read keep theirs, because the
  orderedIDs are collected from the documents fetched for `ids`. An entry
  for an existing entity outside `ids` is re-minted. The model does the
  same: see `FirestoreBackend.WasRead`.
- **Component-less tasks.** The documentation says a task with no components
  is rejected. As written, the mapper's guard never fires: `modifyEntities`
  commits such a task with `minimumDueTimestampMillis = Infinity`, and
  `FirestoreBackend.ModifyEntities` does the same: the mapper never makes it
  fail. The store
  invariant's derived-field clause (`Documents.DerivedFieldConsistent`)
  allows Infinity exactly for a task with no components. Such a task is
  selected by `>` and `>=` filters on the due timestamp, since Infinity lies
  above every number. The corrected operation is
  `FirestoreBackend.ModifyEntitiesIntended`, which fails on such a task and
  otherwise writes what the code as written writes (see Findings).

## Model

| member | source | states |
|---|---|---|
| OrderedIDs.Mint | packages/backend/src/backend/firestoreDatabaseBackend.ts:252-253 | assumed generator: each orderedID minted is strictly larger than every earlier one, and the generator remembers it as its last |
| Predicates.MapQueryPredicateToFirestoreOp | packages/backend/src/backend/firestoreDatabaseBackend.ts:433-437 | the Firestore operator is spelled `==` for the query operator `=` and is spelled the same as the query operator otherwise |
| Predicates.MappedOpKeepsMeaning | packages/backend/src/backend/firestoreDatabaseBackend.ts:159-167 | the Firestore filter built from the mapped operator selects a stored value exactly when the query predicate holds for it |
| Documents.MathMin | packages/backend/src/backend/firestoreDatabaseBackend.ts:410-414 | `Math.min` over the due timestamps is Infinity exactly when there are none, is never NaN, and otherwise is the least timestamp, which occurs among them |
| Documents.Minimum | packages/backend/src/backend/firestoreDatabaseBackend.ts:410-414 | the least due timestamp is absent exactly for no components and otherwise is at most every timestamp and equal to one of them |
| Documents.DocumentFromRecordAsWritten | packages/backend/src/backend/firestoreDatabaseBackend.ts:395-431 | the mapper as written never fails, copies the record and orderedID, gives the document a consistent derived field, and stores Infinity as the minimum for a component-less task |
| Documents.ComponentlessTaskAcceptedAsWritten | packages/backend/src/backend/firestoreDatabaseBackend.ts:415-419 | a task with no components passes the `isNaN` guard as written and is stored with minimum Infinity |
| Documents.DocumentFromRecord | packages/backend/src/backend/firestoreDatabaseBackend.ts:395-431 | the mapper fails with a component-less-entity error exactly for a task with no components; otherwise its document gives back the record and orderedID, a task document holds the least due timestamp, and an attachment-reference document holds no derived field |
| Documents.AsWrittenAgreesWithIntended | packages/backend/src/backend/firestoreDatabaseBackend.ts:408-428 | for every entity except a component-less task, the mapper as written and the corrected mapper produce the same document |
| Documents.DocumentRecordRoundTrip | packages/backend/src/backend/firestoreDatabaseBackend.ts:395-431 | the corrected mapper, given the record of a consistent document and its orderedID, rebuilds that document unless it is a task with no components |
| Documents.RecordOf | packages/backend/src/backend/firestoreDatabaseBackend.ts:370-378 | the record keeps the entity and the last-event ID and timestamp, dropping only the orderedID and the derived field; mapping it back as written under the same orderedID rebuilds any consistent document |
| Documents.ConsistentDocumentDetermined | packages/backend/src/backend/firestoreDatabaseBackend.ts:370-378 | two consistent entity documents with the same record and orderedID are equal, so the derived field carries no information of its own |
| Documents.KeyedByOwnID | packages/backend/src/backend/firestoreDatabaseBackend.ts:386-392 | the result map has a key exactly for each present document's own ID; absent lookups are skipped, and its value comes from the last document with that ID |
| Documents.RecordMapFromDocuments | packages/backend/src/backend/firestoreDatabaseBackend.ts:380-393 | the record map has a key exactly for each present document's own entity ID, holding the record of the last document with that ID; absent documents are skipped |
| Paging.CursorOf | packages/backend/src/backend/firestoreDatabaseBackend.ts:152-153 | a cursor is in force exactly when `afterID` is given and is not the empty string, and it is then `afterID` itself |
| Paging.Matching | packages/backend/src/backend/firestoreDatabaseBackend.ts:189 | the fetched documents are exactly the stored documents the query's filters select, at most one per scanned key, and none twice when the scanned keys hold distinct documents |
| Paging.SortByOrderedID | packages/backend/src/backend/firestoreDatabaseBackend.ts:191-193 | the in-memory sort orders by orderedID and is a permutation of its input |
| Paging.IndexOfObject | packages/backend/src/backend/firestoreDatabaseBackend.ts:195-197 | `findIndex` finds the first position holding the object ID, or reports that none does |
| Paging.RangePage | packages/backend/src/backend/firestoreDatabaseBackend.ts:194-213 | the range page fails with "disappeared" exactly when a cursor is given and no sorted document has its ID; otherwise it is the slice of at most `limit` elements starting at 0, or right after the first cursor position |
| Paging.SortedMatches | packages/backend/src/backend/firestoreDatabaseBackend.ts:189-193 | the sorted matches are sorted by orderedID and hold exactly the stored documents the query selects |
| Paging.ListDocuments | packages/backend/src/backend/firestoreDatabaseBackend.ts:152-214 | an `afterID` naming no stored document fails with "unknown afterID" on both paths; on the range path, a stored cursor fails with "disappeared" exactly when no selected document has its ID; every page is sorted by orderedID, holds only selected documents and has at most `limit` of them |
| PagingProperties.EqualityPathPage | packages/backend/src/backend/firestoreDatabaseBackend.ts:171-181 | the equality path's page is a prefix of the selected documents whose orderedID exceeds the cursor's, in ascending order, strictly ascending when stored orderedIDs are unique; it is cut short only by the limit |
| PagingProperties.RangePathPage | packages/backend/src/backend/firestoreDatabaseBackend.ts:189-213 | the range path's page is a contiguous slice of the sorted matches; it starts at 0 without a cursor or right after the cursor's first position, and it is the whole rest when there is no limit |
| PagingProperties.CursorPosition | packages/backend/src/backend/firestoreDatabaseBackend.ts:195-197 | with unique orderedIDs and documents stored under their own IDs, the position the linear search finds holds the cursor document itself |
| PagingProperties.PathsAgree | packages/backend/src/backend/firestoreDatabaseBackend.ts:171-213 | with unique orderedIDs, documents stored under their own IDs and a cursor that the predicate selects, both paths return the same result |
| PagingProperties.ChainOverSlices | packages/backend/src/backend/firestoreDatabaseBackend.ts:203-208 | if every resumption point yields the next slice of at most `limit` documents, chaining pages from a position yields the rest of the sequence, with no gap or overlap |
| PagingProperties.PageAfterPosition | packages/backend/src/backend/firestoreDatabaseBackend.ts:171-213 | on a store with unique orderedIDs, documents stored under their own IDs and no document stored under the empty ID, resuming after the document at a position of the sorted matches returns the next slice of `limit` documents, on either path |
| PagingProperties.ChainedPagesEnumerateAllMatches | packages/backend/src/backend/firestoreDatabaseBackend.ts:170-213 | chaining pages over an unchanged store, each time resuming after the last document returned, yields every selected document exactly once, in strictly ascending orderedID order |
| PagingProperties.ListingIndependentOfScanOrder | packages/backend/src/backend/firestoreDatabaseBackend.ts:189-193 | with unique orderedIDs, the page does not depend on the order in which Firestore returned the matches |
| FirestoreBackend.Fetch | packages/backend/src/backend/firestoreDatabaseBackend.ts:281-295 | one slot per requested ID, in request order; a slot is filled exactly when a document is stored under that ID, and then holds that document |
| FirestoreBackend.GetEntities | packages/backend/src/backend/firestoreDatabaseBackend.ts:38-47 | every key of the result is the own ID of a fetched entity; with documents stored under their own IDs, the keys are exactly the requested IDs that exist, mapped to their records |
| FirestoreBackend.GetEvents | packages/backend/src/backend/firestoreDatabaseBackend.ts:49-64 | every key of the result is the own ID of a fetched event; with documents stored under their own IDs, the keys are exactly the requested IDs that exist, mapped to their events |
| FirestoreBackend.EntitySelectedSatisfies | packages/backend/src/backend/firestoreDatabaseBackend.ts:75-90 | the type filter and the due-timestamp filter select an entity document exactly when the query asks for it |
| FirestoreBackend.ListEntities | packages/backend/src/backend/firestoreDatabaseBackend.ts:66-97 | a cursor naming no stored entity fails with "unknown afterID" on both paths, and that is the only failure on the equality path; on the range path a stored cursor fails with "disappeared" exactly when no stored entity with its ID is one the query asks for; on success the records are those of stored entities the query asks for, in ascending orderedID order, at most `limit` of them |
| FirestoreBackend.ListEvents | packages/backend/src/backend/firestoreDatabaseBackend.ts:99-120 | a cursor naming no stored event fails with "unknown afterID" on both paths, and that is the only failure on the equality path; on the range path a stored cursor fails with "disappeared" exactly when no stored event with its ID is one the query asks for; on success the events are stored events the query asks for, in ascending orderedID order, at most `limit` of them |
| FirestoreBackend.OrderedIDsRead | packages/backend/src/backend/firestoreDatabaseBackend.ts:240-245 | with documents stored under their own IDs, the orderedIDs collected are exactly those of the requested entities that exist |
| FirestoreBackend.WriteEntries | packages/backend/src/backend/firestoreDatabaseBackend.ts:246-256 | the write loop as written never fails, because the mapper's guard never fires |
| FirestoreBackend.WriteEntriesWrites | packages/backend/src/backend/firestoreDatabaseBackend.ts:246-256 | the write loop writes exactly the entries; an ID that was read keeps its orderedID; every other entry gets an orderedID larger than any issued before, and these increase in iteration order |
| FirestoreBackend.WriteEntriesFails | packages/backend/src/backend/firestoreDatabaseBackend.ts:415-419 | the write loop as intended fails, with a component-less-entity error, exactly when some entry is a task with no components |
| FirestoreBackend.WriteEntriesIntendedAgrees | packages/backend/src/backend/firestoreDatabaseBackend.ts:246-256 | without component-less tasks among the entries, the intended write loop and the loop as written produce the same store |
| FirestoreBackend.ModifyEntities | packages/backend/src/backend/firestoreDatabaseBackend.ts:219-258 | with a total transformer, the mapper as written never makes it fail; writes exactly the transformer's entries, each holding its record with a consistent derived field (Infinity for a task with no components), and leaves the events and other entities unchanged; with documents stored under their own IDs, keeps the orderedID of each entity that was read and existed, and mints fresh increasing ones for the rest |
| FirestoreBackend.ModifyEntitiesIntended | packages/backend/src/backend/firestoreDatabaseBackend.ts:415-419 | the corrected operation fails, with a component-less-entity error, exactly when some entry is a task with no components; otherwise it gives the same store as the code as written, and no written document holds an infinite minimum due timestamp |
| FirestoreBackend.CreateAbsent | packages/backend/src/backend/firestoreDatabaseBackend.ts:269-277 | the create loop fails only with "already exists"; on success it leaves entities unchanged, never lowers the generator, and keeps every event document that was stored |
| FirestoreBackend.CreateAbsentFails | packages/backend/src/backend/firestoreDatabaseBackend.ts:269-276 | the create loop fails, with "already exists", exactly when an event not stored at read time meets a document created earlier in the same loop |
| FirestoreBackend.PutEvents | packages/backend/src/backend/firestoreDatabaseBackend.ts:260-279 | fails exactly when two events share an ID that was not stored; otherwise creates a document, under a fresh increasing orderedID, only for events whose ID had none; never overwrites an existing event document; leaves entities unchanged |
| BackendProperties.PutEventsPreservesValid | packages/backend/src/backend/firestoreDatabaseBackend.ts:260-279 | `putEvents` keeps the store invariant: documents under their own IDs, unique orderedIDs within each collection, none above the generator's last, and consistent derived fields |
| BackendProperties.PutEventsIdempotent | packages/backend/src/backend/firestoreDatabaseBackend.ts:269-276 | calling `putEvents` again with the same events leaves the store exactly as the first call left it |
| BackendProperties.ModifyEntitiesPreservesValid | packages/backend/src/backend/firestoreDatabaseBackend.ts:219-258 | `modifyEntities` keeps the store invariant, component-less tasks included, when the transformer files each record under its own entity's ID |
| BackendProperties.ReadAfterModify | packages/backend/src/backend/firestoreDatabaseBackend.ts:246-256 | on a valid store, when the transformer files each record under its own entity's ID, after `modifyEntities` `getEntities` returns for each written ID that is looked up the record the transformer produced |
| BackendProperties.WriteBackUnchanged | packages/backend/src/backend/firestoreDatabaseBackend.ts:219-258 | a transformer that returns unchanged records read from a valid store succeeds and leaves every entity document as it was, orderedIDs included |
| BackendProperties.EventLogEnumeratedByPaging | packages/backend/src/backend/firestoreDatabaseBackend.ts:99-120 | paging through the unfiltered event log from no cursor returns every stored event document exactly once, in strictly ascending orderedID order |
| BackendProperties.EventPathsAgree | packages/backend/src/backend/firestoreDatabaseBackend.ts:171-213 | on a valid store, an event query whose cursor event matches the predicate gets the same page from both paths |

## Left out

- Firestore I/O, `runTransaction`, `getAll`, `close`/`terminate` and the user
  document path are not modelled. Each transaction is one atomic step on an
  in-memory store; transaction retries, conflicts and concurrency are not
  modelled.
- `getFirebaseKeyFromStringHash` is not part of this model. Documents are
  keyed directly by their object ID, which assumes that the key encoding is
  injective.
- The `OrderedIDGenerator` and `compareOrderedIDs` internals are not part of
  this model. OrderedIDs are natural numbers, compared numerically, minted
  by an abstract counter.
- Each backend instance creates its own `OrderedIDGenerator`
  (`firestoreDatabaseBackend.ts:31`), and several instances, processes or
  writers may mint into the same collections. Neither is modelled: the
  store carries one counter, so freshness and uniqueness of orderedIDs
  across instances are assumed. `BackendProperties.Valid`,
  `BackendProperties.PutEventsPreservesValid`,
  `BackendProperties.ModifyEntitiesPreservesValid` and the "fresh" clause of
  `FirestoreBackend.ModifyEntities` rest on that assumption.
- FirestoreBackend.ModifyEntities: the transformer is modelled as a total,
  synchronous function (`firestoreDatabaseBackend.ts:234`). If the caller's
  transformer throws or rejects, the source's transaction rejects and writes
  nothing; the model does not represent that failure.
- OrderedIDs minted before a failing transaction aborts are not modelled: on
  failure the store, generator included, is left as it was. The in-memory
  generator of the source would already have advanced. Freshness of later
  orderedIDs is unaffected.
- Firestore's native ordering by the predicate field, and its tie-breaking
  by document name, are not modelled. The scan order is an arbitrary
  duplicate-free enumeration of the keys, and the result is shown not to
  depend on it when orderedIDs are unique.
- Firestore compares strings by their UTF-8 bytes. The model compares
  `seq<char>` lexicographically by character, so no encoding is modelled.
- A NaN stored in `minimumDueTimestampMillis` is treated as never matching a
  filter. No mapper output contains NaN (`Documents.MathMin` is never NaN).
- Entity fields the backend never reads (task content, metadata, component
  intervals) are left out of `Documents.Entity`.
- A negative or fractional `limit` is not modelled: query limits are
  natural numbers. In the source, such a limit would reach `slice` on the
  range path, where a negative end drops documents from the end of the
  matches, and Firestore's `limit` on the equality path.
- Calls to Firestore's `getAll` with an empty list of references are assumed
  to return no snapshots.
- `Paging.ListDocuments`: the equality path applies `startAfter` to the
  cursor's orderedID alone. Firestore's tie-break on document name among
  equal orderedIDs is not modelled, so the two paths are shown to agree only
  when orderedIDs are unique.
- `PagingProperties.ChainedPagesEnumerateAllMatches` and
  `BackendProperties.EventLogEnumeratedByPaging`: the chain of pages carries
  a `fuel` bound, and the lemmas assume fuel of at least the number of
  stored documents. They also assume no stored document has the empty ID,
  which as a cursor would restart paging.
- `BackendProperties.ModifyEntitiesPreservesValid`: the source does not check
  that the transformer files each record under its own entity's ID. The
  invariant is proved only for transformers that do.
- `BackendProperties.ReadAfterModify`: proved only on a valid store and for
  a transformer that files each record under its own entity's ID. The
  source keys the records it reads back by `doc.entity.id`
  (`firestoreDatabaseBackend.ts:389`), so a record filed under another ID is
  not found under the ID it was written to.
- `FirestoreBackend.ModifyEntities`: the orderedID clause is stated only for
  a store whose documents sit under their own entity's ID. The source keys
  the orderedIDs it reads by `doc.entity.id`
  (`firestoreDatabaseBackend.ts:243`), so an entity stored under another key
  is re-minted although it was read.

## Findings

| source | as written | input that shows it | evidently intended | confidence | as-written member | corrected member |
|---|---|---|---|---|---|---|
| packages/backend/src/backend/firestoreDatabaseBackend.ts:415 | The guard tests `isNaN(Math.min(...dueTimestamps))`. `Math.min()` of no arguments is `Infinity`, not NaN, so the guard never fires for integer timestamps. | A record whose entity is a `Task` with an empty `componentStates` object: it is stored with `minimumDueTimestampMillis = Infinity`. | Reject a task with no components ("Unexpected component-less entity"), aborting the transaction before anything is written; `FirestoreBackend.ModifyEntitiesIntended` is the operation with that correction. | not executed | Documents.ComponentlessTaskAcceptedAsWritten | Documents.DocumentFromRecord |
