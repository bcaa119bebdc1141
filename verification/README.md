# Polar Bookshelf core, modelled in Dafny

This project models the sequential, data-shaped core of Polar Bookshelf, a
desktop document repository and reader. The model covers these parts:

- **Persistence path for document metadata (`DocMeta`).**
  - The de-duplicating snapshot listener. It keeps a fingerprint index and
    forwards only new or newer mutations.
  - The committed-snapshot and purge event sequences that a `Datastore` emits.
  - The string-keyed `PersistenceLayer`.
- **Event machinery.**
  - `QueuedReactor`: events dispatched before any listener exists are held
    per event name, then drained.
  - `Event`: a callback list.
  - `SyncQueue`: a first-in, first-out task queue with abort, fail-stop and
    progress reporting.
  - The Anki sync engine's derivation of notes and decks.
- **Metadata objects.** `SerializedObject.init` copies fields, then runs
  `setup`, then `validate`. `TemporalObject`, `Annotation`, `Pagemark`,
  `DocInfo` and `Note` layer their defaults and checks over it. Flashcard
  creation and annotation descriptors are modelled too.
- **Utilities.** `Dictionaries`, the pure helpers of `utils.js`,
  `Styles.parsePX` and `positioningToPX`, `Rect` and `DocFormatFactory`.
- **Repository-level operations.**
  - The in-memory `DocRepository` index and its tag registry.
  - The flattening of a document's annotations into repository rows.
  - The flashcard and area-highlight handlers, which update the page maps.
  - The initial dock-layout store.
  - The choice of splash component.

JavaScript values are modelled explicitly:
- `JsValues.JsValue` has undefined, null, booleans, integer numbers, NaN,
  strings and objects.
- An object is an insertion-ordered association list (`Dicts.Dict`), so
  `Object.keys` order, `Object.assign` overwriting and `for … in` traversal
  are all expressible.
- JavaScript truthiness, `x || d`, `if (!o.k) o.k = d` and
  `Preconditions.defaultValue` each have their own definition.
- Property access on `null` or `undefined` is an error result.
- A loop that mutates in place and may throw returns `Wrappers.Partial`:
  the state it leaves behind and the error it threw, if any.
- `typeof null === "object"` is kept, so `init(null)` runs `setup` and
  `validate`.
- `parseInt` follows section 19.2.5 of ECMA-262 on the decimal and
  hexadecimal paths.
- Strings are sequences of Unicode scalar values. `Array.prototype.sort`
  compares their UTF-16 code units (`JsStrings.StrLess`), so a character
  from U+10000 up sorts between U+D7FF and U+E000.

Functions that the model does not contain become function parameters:
- `DocMetas.serialize` and `deserialize`
- `UUIDs.compare`
- `Hashcodes.createID`
- `Percentages.calculate`
- `Tags.parseTypedTag`
- `DocInfos.bestTitle`
- `HighlightColors.withDefaultColor`
- `Annotations.toText`
- `Images.toImg`
- `AnnotationTypes.fromString`
- the clock

The delegate `Reactor`, whose code is not part of this model, is modelled
by a fixed rule (see `QueuedReactors.DelegateDispatch` under "Left out").

Stateful classes (`QueuedReactor`, `SyncQueue`, the dedup listener,
`DocRepository`) are modelled differently: each is an immutable state, and
each method takes a state and returns the next one.

## Model

| member | source | states |
|---|---|---|
| DocMetaSnapshotEventListeners.Step | web/js/datastore/DocMetaSnapshotEventListeners.ts:39-70 | A dropped mutation leaves the fingerprint index unchanged. A forwarded created or updated mutation records its document's uuid under its fingerprint. A forwarded deletion removes the fingerprint. |
| DocMetaSnapshotEventListeners.Filter | web/js/datastore/DocMetaSnapshotEventListeners.ts:34-72 | The forwarded mutations of one event are a subsequence of its mutations, in input order. |
| DocMetaSnapshotEventListeners.Listen | web/js/datastore/DocMetaSnapshotEventListeners.ts:30-84 | The output listener is called exactly when at least one mutation was accepted. The forwarded event keeps the input's consistency and progress and carries only the accepted mutations. |
| DocMetaSnapshotEventListeners.Session | web/js/datastore/DocMetaSnapshotEventListeners.ts:18-30 | One listener fed a run of events forwards at most one event per input event. |
| DocMetaSnapshotEventListeners.FilterAppend | web/js/datastore/DocMetaSnapshotEventListeners.ts:20-30 | Filtering two batches one after the other, with the index carried over, equals filtering their concatenation. |
| DocMetaSnapshotEventListeners.SessionForwardsFilter | web/js/datastore/DocMetaSnapshotEventListeners.ts:30-84 | The index persists across calls of the same listener. Over a run of events, the forwarded mutations and the final index are those of filtering all mutations in one pass. |
| DocMetaSnapshotEventListeners.CreatedTwiceForwardedOnce | web/js/datastore/DocMetaSnapshotEventListeners.ts:41-63 | A 'created' mutation for an unknown fingerprint is forwarded, and the same mutation repeated is dropped. |
| DocMetaSnapshotEventListeners.DeleteThenCreate | web/js/datastore/DocMetaSnapshotEventListeners.ts:41-70 | Deleting a known document forgets it, so a following 'created' mutation for it is forwarded again. |
| Datastores.DeliverFrom | web/js/datastore/Datastores.ts:40-49 | Calls the listener once per ref, in order, with the deserialized data. It stops with an error at the first ref that has no data, and every ref before that one had data. |
| Datastores.GetDocMetas | web/js/datastore/Datastores.ts:32-51 | With no refs argument, every ref listed by the datastore is delivered; otherwise exactly the given refs are. |
| Datastores.PerDocument | web/js/datastore/Datastores.ts:91-114 | Emits one committed event per document. Each event holds a single 'created' mutation, and its progress counts that document. |
| Datastores.CreateCommittedSnapshot | web/js/datastore/Datastores.ts:58-128 | Emits one event per document, then exactly one terminal event: no mutations, batch marked terminated, same batch id. This holds for zero documents too. Batch id 0 is used when no batch is given. |
| Datastores.SnapshotProgress | web/js/datastore/Datastores.ts:108-124 | Event i reports i+1 of N. Only the terminal event is marked terminated unless the given batch already was. |
| Datastores.SnapshotThroughDeduplication | web/js/datastore/Datastores.ts:91-124 | Fed through the de-duplicating listener, a snapshot of distinct new documents is forwarded whole: one event per document, in order. |
| Datastores.CreationForwarded | web/js/datastore/DocMetaSnapshotEventListeners.ts:41-80 | A committed event creating an unknown document is forwarded without its batch, and the document is indexed. |
| Datastores.TerminalNotForwarded | web/js/datastore/Datastores.ts:116-124 | The terminal event, having no mutations, never reaches the output listener and leaves the index as it was. |
| Datastores.PurgeFrom | web/js/datastore/Datastores.ts:144-166 | Issues one delete per document, built from its filename and hashcode, each followed by one progress report (completed = i+1 of N). It stops at the first document whose data is missing. |
| Datastores.Purge | web/js/datastore/Datastores.ts:134-172 | Over zero documents it reports exactly once, at 100%; otherwise it deletes and reports per document. |
| Datastores.PurgeReports | web/js/datastore/Datastores.ts:139-170 | When every document loads, there are N deletes and max(N,1) reports, and report i is i+1 of N. |
| PersistenceLayers.GetDocMeta | web/js/datastore/PersistenceLayer.js:37-48 | A missing or falsy stored value (the empty string included) gives null. A stored non-string throws with its type in the message. A stored string gives its deserialization. |
| PersistenceLayers.Sync | web/js/datastore/PersistenceLayer.js:60-72 | Stores the two-space-indented serialization under the given fingerprint and changes no other key. |
| PersistenceLayers.SyncDocMeta | web/js/datastore/PersistenceLayer.js:53-55 | Behaves as `sync(docMeta.fingerprint, docMeta)`. It fails only when docMeta is null or undefined. A docMeta without a fingerprint is stored under `undefined`. |
| PersistenceLayers.SyncThenGet | web/js/datastore/PersistenceLayer.js:37-72 | Reading back what was synced gives deserialize(serialize(d)), or null when the serialization is empty. When the serializer round-trips, this is d itself. |
| PersistenceLayers.SyncIsolated | web/js/datastore/PersistenceLayer.js:60-72 | Syncing one fingerprint does not change what any other fingerprint reads back. |
| JsValues.NegatedInstanceOfGuard | web/js/datastore/PersistenceLayer.js:62-64 | The guard `!docMeta instanceof DocMeta` never fires, whatever the value. |
| QueuedReactors.DispatchEvent | web/js/reactor/QueuedReactor.ts:54-68 | With listeners for the name, the value is delivered directly; otherwise it is enqueued under that name. |
| QueuedReactors.NewReactor | web/js/reactor/QueuedReactor.ts:14-18 | A new reactor is valid, has no listeners, holds nothing and has delivered nothing. |
| QueuedReactors.Enqueue | web/js/reactor/QueuedReactor.ts:95-105 | Appends the value to the queue of its name and leaves the queues of other names, the listeners and the deliveries unchanged. |
| QueuedReactors.ClearEnqueued | web/js/reactor/QueuedReactor.ts:111-123 | Returns the name's queued values and empties only that name's queue. |
| QueuedReactors.AddEventListener | web/js/reactor/QueuedReactor.ts:20-36 | Afterwards nothing is queued under the name. Queues and listeners of other names are unaffected. When nothing was held for the name, the listener is appended to its list and the queue and delivery log are unchanged. |
| QueuedReactors.RemoveEventListener | web/js/reactor/QueuedReactor.ts:91-93 | Removes the listener's first registration for the name; the other registrations keep their order. A listener not registered leaves everything unchanged, and other names and held events are untouched. |
| QueuedReactors.RemoveFirstAt | web/js/reactor/QueuedReactor.ts:91-93 | The list left behind is the list before the first occurrence followed by the list after it. |
| QueuedReactors.Once | web/js/reactor/QueuedReactor.ts:39-52 | Registering a one-shot listener leaves nothing queued under the name. |
| QueuedReactors.Resolved | web/js/reactor/QueuedReactor.ts:43-46 | The promise of a one-shot listener is resolved exactly when that listener received a delivery. |
| QueuedReactors.OperationsKeepValid | web/js/reactor/QueuedReactor.ts:20-68 | Dispatch, add and remove keep the invariant that a name never has both listeners and a pending queue. |
| QueuedReactors.DispatchWithoutListenerQueues | web/js/reactor/QueuedReactor.ts:54-66 | Dispatching to a name without listeners appends the value to its queue and delivers nothing. |
| QueuedReactors.DispatchWithListenerDelivers | web/js/reactor/QueuedReactor.ts:56-60 | Dispatching to a name with listeners delivers the value to each listener in registration order and queues nothing. |
| QueuedReactors.DelegateDispatch | web/js/reactor/QueuedReactor.ts:56-60 | Each listener of the name receives the value in order. One-shot listeners are dropped afterwards; other names are untouched. |
| QueuedReactors.DispatchAllToPlain | web/js/reactor/QueuedReactor.ts:28-30 | Draining a queue into one plain listener delivers every value, in queue order, and keeps the listener. |
| QueuedReactors.AddListenerDrains | web/js/reactor/QueuedReactor.ts:20-32 | Adding a listener delivers every queued value for the name in dispatch order and empties the queue. Queued values are delivered once. |
| QueuedReactors.OnceTakesFirstQueued | web/js/reactor/QueuedReactor.ts:39-52 | `once` on a name with queued values resolves with the first of them, then removes its listener. |
| QueuedReactors.OnceTakesNextDispatch | web/js/reactor/QueuedReactor.ts:39-52 | `once` on an idle name resolves with the next dispatched value, then removes its listener. |
| Events.NewEvent | web/js/reactor/Event.js:6-9 | A new event has the given name and no callbacks. |
| Events.RegisterCallback | web/js/reactor/Event.js:11-13 | Registering appends the callback at the end and keeps the earlier ones. |
| Events.GetCallbacks | web/js/reactor/Event.js:15-17 | Hands out the registered callback list itself, in registration order. |
| Events.RegisterAllOrder | web/js/reactor/Event.js:11-17 | The callbacks are returned in registration order. |
| Events.RegisterTwiceKeepsBoth | web/js/reactor/Event.js:11-13 | Registering the same callback twice keeps both entries. |
| SyncQueues.Add | web/js/apps/sync/SyncQueue.ts:39-42 | Appends all tasks to the pending list in order and counts the call once in `total`, however many tasks it adds. |
| SyncQueues.AddCountsCalls | web/js/apps/sync/SyncQueue.ts:39-42 | Adding two tasks in one call gives a total of 1. |
| SyncQueues.Execute | web/js/apps/sync/SyncQueue.ts:47-88 | Tasks are consumed from the front. What remains is a suffix of the pending list, and at most one event is emitted per consumed task. |
| SyncQueues.Run | web/js/apps/sync/SyncQueue.ts:59-86 | Every event but the last is STARTED, since a failure ends the loop. An event carries an error exactly when it is FAILED. |
| SyncQueues.Size | web/js/apps/sync/SyncQueue.ts:90-92 | The size is 0 exactly when nothing is pending. |
| SyncQueues.NewSyncQueue | web/js/apps/sync/SyncQueue.ts:20-25 | A new queue has size 0 and a total of 0. |
| SyncQueues.RunShape | web/js/apps/sync/SyncQueue.ts:59-86 | The run loop leaves a suffix of its input and emits no more events than the tasks it consumed. |
| SyncQueues.RunSucceeds | web/js/apps/sync/SyncQueue.ts:80-83 | Each of j successful tasks emits one STARTED event with its own completed count, in order. |
| SyncQueues.ExecuteAllSucceed | web/js/apps/sync/SyncQueue.ts:59-86 | When every task succeeds, the queue ends empty with one STARTED event per task. |
| SyncQueues.ExecuteAllSucceedEndsAt100 | web/js/apps/sync/SyncQueue.ts:80-83 | After a fully successful run, size is 0 and the last event is STARTED at 100%. |
| SyncQueues.ExecuteFailStops | web/js/apps/sync/SyncQueue.ts:66-78 | The first failing task emits exactly one FAILED event carrying its error and the last percentage. Execution then stops, leaving later tasks pending. |
| SyncQueues.ExecuteAbortDrops | web/js/apps/sync/SyncQueue.ts:59-64 | When aborted, the task just dequeued is discarded without running or emitting, and execution returns. |
| AnkiSyncEngines.FieldText | web/js/apps/sync/framework/anki/AnkiSyncEngine.ts:58-60 | A note field is the first non-empty of HTML, TEXT and MARKDOWN; `Optional.get` fails when none is present. |
| AnkiSyncEngines.FieldTextOfCreated | web/js/apps/sync/framework/anki/AnkiSyncEngine.ts:59 | A text created with one body yields that body, except an empty HTML or TEXT body, which is absent. |
| AnkiSyncEngines.NoteFields | web/js/apps/sync/framework/anki/AnkiSyncEngine.ts:54-60 | The fields fail exactly when some flashcard field has no text. |
| AnkiSyncEngines.NoteFieldsKeys | web/js/apps/sync/framework/anki/AnkiSyncEngine.ts:58-60 | The note has exactly the flashcard's field names, each mapped to its text. |
| AnkiSyncEngines.NoteTags | web/js/apps/sync/framework/anki/AnkiSyncEngine.ts:62-66 | Note tags are the labels of the document's tags in order, or none when it has no tags. |
| AnkiSyncEngines.LastDeck | web/js/apps/sync/framework/anki/AnkiSyncEngine.ts:90-96 | Finds the last tag that starts with "deck:" and parses as a typed tag, or none when there is no such tag. |
| AnkiSyncEngines.LastDeckUnique | web/js/apps/sync/framework/anki/AnkiSyncEngine.ts:90-96 | Any tag that is the last deck tag is the one found. |
| AnkiSyncEngines.ComputeDeckName | web/js/apps/sync/framework/anki/AnkiSyncEngine.ts:80-106 | The deck name is the value of the last deck tag. With no deck tag, or an empty value, it is `bestTitle(docInfo)`. |
| AnkiSyncEngines.ToNoteDescriptor | web/js/apps/sync/framework/anki/AnkiSyncEngine.ts:50-76 | A note has the flashcard's guid, model "Basic", the computed deck, fields and tags. It fails exactly when its fields fail. |
| AnkiSyncEngines.ToNoteDescriptors | web/js/apps/sync/framework/anki/AnkiSyncEngine.ts:46-78 | One note per flashcard, in order. The whole fails exactly when one flashcard fails. |
| AnkiSyncEngines.Distinct | web/js/apps/sync/framework/anki/AnkiSyncEngine.ts:35-37 | Has the same elements, without repeats, in order of first occurrence. |
| AnkiSyncEngines.DeckDescriptors | web/js/apps/sync/framework/anki/AnkiSyncEngine.ts:35-40 | The decks are exactly the distinct deck names of the notes. |
| AnkiSyncEngines.Sync | web/js/apps/sync/framework/anki/AnkiSyncEngine.ts:31-44 | The sync job carries the notes and the decks derived from them, and fails exactly when a note fails. |
| AnkiSyncEngines.SameDocumentSameDeck | web/js/apps/sync/framework/anki/AnkiSyncEngine.ts:52-66 | Flashcards of the same document land in the same deck with the same tags. |
| SerializedObjects.Init | web/js/metadata/SerializedObject.ts:13-21 | A non-object value changes nothing and runs no hook. An object is copied over the receiver, then `setup` runs, then `validate`, whose complaint is the only failure. |
| SerializedObjects.InitCopiesFields | web/js/metadata/SerializedObject.ts:13-29 | With the base no-op hooks, every field of the value is copied and the receiver's other fields are kept. |
| SerializedObjects.InitNullRunsHooks | web/js/metadata/SerializedObject.ts:15-19 | Because `typeof null` is "object", `init(null)` runs `setup` and `validate` on the unchanged receiver. |
| TemporalObjects.Initial | web/js/metadata/TemporalObject.js:19-25 | `created` and `lastUpdated` start as null. |
| TemporalObjects.Setup | web/js/metadata/TemporalObject.js:31-38 | A missing `lastUpdated` takes `created` when `created` is present. An existing `lastUpdated` is kept, and no other field changes. |
| TemporalObjects.Validate | web/js/metadata/TemporalObject.js:40-57 | Complains exactly when `created` is missing. The instanceof checks never complain. |
| TemporalObjects.New | web/js/metadata/TemporalObject.js:11-29 | Built from a non-object, it keeps its initial nulls. |
| TemporalObjects.NewFromObject | web/js/metadata/TemporalObject.js:11-57 | Built from an object, it fails exactly when `created` is missing. Otherwise `created` is copied and `lastUpdated` defaults to it. |
| Annotations.Initial | web/js/metadata/Annotation.js:19-31 | `id`, `created` and `lastUpdated` start as null. |
| Annotations.Setup | web/js/metadata/Annotation.js:42-49 | A falsy `lastUpdated` takes a truthy `created`. Otherwise the object is unchanged, and no other field ever changes. |
| Annotations.Validate | web/js/metadata/Annotation.js:51-66 | Complains exactly when `created` is falsy; the two type checks never fire. |
| Annotations.New | web/js/metadata/Annotation.js:9-40 | A non-object argument gives the initial annotation. `null` passes the typeof test and then fails validation. |
| Annotations.Construct | web/js/metadata/Annotation.js:9-40 | Constructed from a non-object, with any hooks, it keeps its initial nulls. |
| Annotations.NewFromObject | web/js/metadata/Annotation.js:9-68 | Fails exactly when `created` is missing. Otherwise `id` and `created` are copied and `lastUpdated` defaults to `created`. |
| Annotations.NewFromNonObject | web/js/metadata/Annotation.js:9-40 | A non-object input gives the initial annotation; neither hook acts. |
| Pagemarks.Setup | web/js/metadata/Pagemark.ts:72-92 | `notes` defaults to {}, `type` to SINGLE_COLUMN, `percentage` to 100 and `column` to 0, each when falsy. Other fields follow Annotation's setup. |
| Pagemarks.Validate | web/js/metadata/Pagemark.ts:94-96 | Complains exactly when `created` is falsy, as the annotation's validation does. |
| Pagemarks.New | web/js/metadata/Pagemark.ts:51-70 | Constructing from undefined throws. |
| Pagemarks.WithFieldsField | web/js/metadata/Pagemark.ts:59-63 | The constructor copies notes, type, percentage and rect, and sets `column` from the input's `percentage`. |
| Pagemarks.SecondAssign | web/js/metadata/Pagemark.ts:59-68 | The second `init` restores `column` from the input when it has one; otherwise `column` keeps the percentage. |
| Pagemarks.NewFromObject | web/js/metadata/Pagemark.ts:51-96 | Fails exactly when `created` is missing. Otherwise notes, type, percentage and column take the input's values or their defaults, and column falls back to the input's percentage. |
| Pagemarks.FirstInit | web/js/metadata/Pagemark.ts:53 | The inherited constructor already runs Pagemark's own setup and Annotation's validate on the input. |
| Pagemarks.FinalFields | web/js/metadata/Pagemark.ts:68-92 | After the second `init` the fields are the defaulted ones stated for the constructor. |
| Pagemarks.NewFromUndefined | web/js/metadata/Pagemark.ts:59 | Reading `val.notes` of undefined throws. |
| DocInfos.Setup | web/js/metadata/DocInfo.js:21-25 | `progress` defaults to 0 and `properties` to {} when null or undefined, and `pagemarkType` to SINGLE_COLUMN when falsy. Nothing else changes. |
| DocInfos.Validate | web/js/metadata/DocInfo.js:26-29 | Complains exactly when `nrPages` is not a number or `fingerprint` is absent. |
| DocInfos.New | web/js/metadata/DocInfo.js:8-20 | Constructing from null or undefined throws. |
| DocInfos.NewFromObject | web/js/metadata/DocInfo.js:8-29 | The input's own fields override the defaults: archived and flagged false; tags, attachments and properties {}; progress 0; pagemarkType SINGLE_COLUMN. `setup` restores unset ones. Construction fails exactly as `validate` says. |
| DocInfos.PreparedFields | web/js/metadata/DocInfo.js:19-25 | The defaulted, copied and set-up fields are as stated for construction, before validation. |
| DocInfos.DefaultsField | web/js/metadata/DocInfo.js:10-18 | The default object has exactly the listed default fields; any other field is undefined. |
| Notes.Setup | web/js/metadata/Note.js:13-17 | A missing `content` defaults to empty HTML text, a present one is kept, and nothing else changes. |
| Notes.Validate | web/js/metadata/Note.js:18-22 | Complains exactly when `created` is missing. |
| Notes.New | web/js/metadata/Note.js:8-12 | Constructing from null or undefined throws. |
| Notes.NewFromObject | web/js/metadata/Note.js:8-22 | `content` is taken from the input or defaults. Other fields are the input's own or inherited. It fails exactly when `created` ends up missing. |
| Notes.NewFromUndefined | web/js/metadata/Note.js:10 | Reading `val.content` of undefined throws the TypeError. |
| Flashcards.Create | web/js/metadata/Flashcards.ts:14-28 | Rejects null fields. `id` and `guid` are one value computed from the fields. `created` equals `lastUpdated`. Type, fields and archetype are as given. |
| Flashcards.SameFieldsSameId | web/js/metadata/Flashcards.ts:24-26 | The id depends on the fields alone, not on the type, archetype or time. |
| Flashcards.CreateFromSchemaFormData | web/js/metadata/Flashcards.ts:33-48 | Always of type BASIC_FRONT_BACK, with the given archetype and an id computed from its fields. |
| Flashcards.SchemaFields | web/js/metadata/Flashcards.ts:39-44 | One HTML text field per form key, carrying that key's value, and no other field. |
| Flashcards.AttachFrom | web/js/metadata/Flashcards.ts:61-80 | Throws exactly when some page has no flashcard map. Each page before the first such page, in order, gains its own mock card. That page and those after it are left as they were. |
| Flashcards.AttachFlashcards | web/js/metadata/Flashcards.ts:57-84 | The document the loop leaves, thrown or not, keeps its document information. |
| Flashcards.AttachAddsOneCardPerPage | web/js/metadata/Flashcards.ts:61-82 | Every page the loop reaches keeps its key and highlights and gains exactly one flashcard, keyed by its id. This holds even when a later page throws. Other flashcards are unchanged. |
| AnnotationDescriptors.FromElement | web/js/metadata/AnnotationDescriptors.ts:7-24 | No descriptor when `annotationType` is missing or empty. Otherwise the type is the converted type name, and id, fingerprint and parsed page number come from their data attributes. |
| AnnotationDescriptors.FromElementOfDataAttributes | web/js/metadata/AnnotationDescriptors.ts:9-22 | An element carrying the four data attributes yields exactly the descriptor with those values, in constructor order. |
| AnnotationDescriptors.OnlyFirstDashReplaced | web/js/metadata/AnnotationDescriptors.ts:15 | Only the first '-' of the type name becomes '_'. |
| JsStrings.StrLessIsUtf16Order | web/js/util/Dictionaries.ts:64 | The key order used by `sort()` is exactly lexicographic order on the keys' UTF-16 code units, a proper prefix first. |
| JsStrings.UnitsLessFirstChar | web/js/util/Dictionaries.ts:64 | Between two different characters, the first code unit that differs decides, whatever follows. |
| JsStrings.ReplaceFirst | web/js/metadata/AnnotationDescriptors.ts:15 | String replace with a string pattern changes only the first occurrence, or nothing when there is none. |
| JsStrings.ParseIntOfDecimal | web/js/utils.js:322 | `parseInt` of an integer's decimal text, followed by a non-digit suffix, gives the integer back. |
| Dictionaries.ValuesOf | web/js/util/Dictionaries.ts:6-17 | The values of null, undefined or any falsy value are an empty list. An object's values come in key order. |
| Dictionaries.ForDict | web/js/util/Dictionaries.ts:25-39 | Rejects a null dict or callback. Otherwise it calls back exactly once per own key, in key order. |
| Dictionaries.SortByKey | web/js/util/Dictionaries.ts:64 | The keys end up sorted in UTF-16 code-unit order, with the same entries (a permutation). Unique keys become strictly sorted. |
| Dictionaries.SortByKeyKeepsEntries | web/js/util/Dictionaries.ts:64-66 | Sorting keeps every key's value. |
| Dictionaries.Sorted | web/js/util/Dictionaries.ts:50-70 | Non-objects are returned unchanged. An object becomes an object with sorted keys and as many entries. |
| Dictionaries.SortedObject | web/js/util/Dictionaries.ts:62-68 | The sorted object has the same key set, each value itself sorted. |
| Dictionaries.SortedIsDeeplySorted | web/js/util/Dictionaries.ts:50-70 | Keys are sorted at every nesting level. |
| Dictionaries.OnlyDefinedProperties | web/js/util/Dictionaries.ts:79-105 | Non-objects are returned unchanged. An object keeps no top-level undefined value and its keys are sorted. |
| Dictionaries.OnlyDefinedPropertiesKeys | web/js/util/Dictionaries.ts:93-101 | A key is kept exactly when its value is defined, and its value passes through `sorted`. |
| Dictionaries.NestedUndefinedKept | web/js/util/Dictionaries.ts:100 | An undefined value nested below the top level survives. |
| Dictionaries.CopyOf | web/js/util/Dictionaries.ts:113-133 | null, undefined and every non-object come back as they are. An object comes back as a fresh object with distinct keys. |
| Dictionaries.CopyOfIsEqual | web/js/util/Dictionaries.ts:113-133 | The copy is structurally equal to the original, object or not. |
| Dictionaries.ToDict | web/js/util/Dictionaries.ts:138-148 | The result has unique keys. |
| Dictionaries.ToDictKeys | web/js/util/Dictionaries.ts:142-144 | The keys are exactly the converter's values over the list. |
| Dictionaries.ToDictLastWins | web/js/util/Dictionaries.ts:142-144 | On a key collision the later value wins. |
| Dictionaries.CountOf | web/js/util/Dictionaries.ts:150-156 | The number of keys, or 0 for null or undefined. |
| Dictionaries.CountOfIsValuesCount | web/js/util/Dictionaries.ts:150-156 | The count equals the number of values. |
| Utils.CreateSiblingTuples | web/js/utils.js:103-119 | One tuple per element with `curr = arr[i]`. `prev` is the previous element and `next` the next one, null at either end. |
| Utils.SiblingTuplesLink | web/js/utils.js:110-112 | Neighbouring tuples point at each other's current element. |
| Utils.MinBy | web/js/utils.js:88-89 | The minimum is attained and bounds every element from below. |
| Utils.MaxBy | web/js/utils.js:90-91 | The maximum is attained and bounds every element from above. |
| Utils.BoundingBox | web/js/utils.js:86-95 | Over a non-empty list it encloses every box, and each side touches some box. An empty list is an error. |
| Utils.BoundingBoxOfOne | web/js/utils.js:86-95 | The bounding box of a single box is that box. |
| Utils.ForDict | web/js/utils.js:61-70 | Rejects a null dict or a null callback, the dict first. Otherwise it calls back once per key, in key order, with the value read under that key. |
| Utils.ForDictAgrees | web/js/utils.js:61-70 | Agrees with `Dictionaries.forDict` on a dict with unique keys, for any callback or a null one. |
| Utils.RequireClass | web/js/utils.js:161-172 | Succeeds exactly when the class attribute is present, non-empty and contains `clazz` as a substring. This is the class defined in `utils.js`; its export is later replaced by `util/Elements.js` (utils.js:330). |
| Utils.ParsePixelsOfPx | web/js/utils.js:319-324 | Parsing an integer's decimal text followed by "px" gives the integer back. |
| Utils.ParsePixels | web/js/utils.js:319-324 | A value without "px" is read by `parseInt` unchanged. Otherwise only its first "px" is cut out before reading. |
| Utils.Apply | web/js/utils.js:48-57 | Calls the named function on every delegate, in order, with the same arguments. It stops at the first delegate without that function. |
| Styles.ParsePX | web/js/util/Styles.js:8-14 | Throws on null, undefined, a non-string or the empty string. Otherwise it parses the text without its first "px" (NaN when it has no digits). |
| Styles.ParsePXOfPx | web/js/util/Styles.js:13 | Parsing "&lt;n&gt;px" gives n. |
| Styles.ToPX | web/js/util/Styles.js:48-50 | Undefined and null stay undefined; other values go through `parsePX`. |
| Styles.ToPXAll | web/js/util/Styles.js:44-51 | Every own value is converted in place, and the whole fails exactly when one conversion fails. |
| Styles.PositioningToPX | web/js/util/Styles.js:35-53 | The result always has left, top, right, bottom, width and height, and fails exactly when some own value fails `parsePX`. |
| Styles.PositioningToPXValues | web/js/util/Styles.js:44-51 | Own values are converted by `parsePX`; the six keys the input lacks stay undefined. |
| Rects.NewRect | web/js/Rect.js:11-45 | A new Rect has all six fields. An object argument's fields are copied and the others are undefined. A string argument adds each character under its decimal index, as `Object.assign` does. Any other argument gives just the six undefined fields. |
| Rects.ToLine | web/js/Rect.js:47-57 | 'x' gives (left, right) and 'y' gives (top, bottom); any other axis throws. |
| Rects.AdjustAxis | web/js/Rect.js:65-90 | On x it sets left and right from the line and width to end minus start; on y, top, bottom and height. A null line or another axis throws. |
| Rects.AdjustAxisFrame | web/js/Rect.js:70-88 | The other axis's fields are those of a fresh copy of the receiver. |
| Rects.SetSpan | web/js/Rect.js:74-82 | Sets the span's three fields and leaves every other field as it was. |
| Rects.AdjustThenToLine | web/js/Rect.js:47-90 | Reading back the line an axis was adjusted to gives that line. |
| DocFormatFactories.GetPolarDocFormat | web/js/docformat/DocFormatFactory.ts:30-46 | The meta content when it is present and non-empty, otherwise "none". |
| DocFormatFactories.GetInstance | web/js/docformat/DocFormatFactory.ts:14-28 | "html" yields the HTML format and "pdf" the PDF format; every other value, "none" included, throws. |
| DocFormatFactories.NullBranchUnreachable | web/js/docformat/DocFormatFactory.ts:22-23 | The null branch would give PDF, but it is never taken: an absent content throws instead. |
| DocRepositories.UpdateTagsDB | apps/repository/js/DocRepository.ts:133-145 | The tag database afterwards holds exactly its old tags plus the tags of every given record. |
| DocRepositories.UpdateDocInfo | apps/repository/js/DocRepository.ts:41-48 | Each given record is stored under its fingerprint, the last one winning. Other entries are unchanged and its tags are registered. |
| DocRepositories.UpdateDocInfoLastWins | apps/repository/js/DocRepository.ts:43-45 | The last record for a fingerprint is the one stored; untouched fingerprints keep their entries. |
| DocRepositories.SyncDocInfo | apps/repository/js/DocRepository.ts:54-73 | Writes only when the layer holds a DocMeta for the fingerprint, replacing its docInfo. No other fingerprint changes. |
| DocRepositories.SyncDocInfoIdempotent | apps/repository/js/DocRepository.ts:54-73 | Syncing the same docInfo twice equals syncing it once. |
| DocRepositories.Retitled | apps/repository/js/DocRepository.ts:84-86 | The title is set on both the record and its docInfo, and nothing else in them changes. |
| DocRepositories.SyncDocInfoTitle | apps/repository/js/DocRepository.ts:78-92 | Rejects a missing title. Otherwise it re-indexes the retitled record and syncs its docInfo. |
| DocRepositories.RetitleReachesEverywhere | apps/repository/js/DocRepository.ts:84-90 | After retitling, the index entry, its docInfo and the stored DocMeta all carry the new title. Other entries are unchanged. |
| DocRepositories.Retagged | apps/repository/js/DocRepository.ts:103-105 | The same tag map is set on both the record and its docInfo, and nothing else changes. |
| DocRepositories.SyncDocInfoTags | apps/repository/js/DocRepository.ts:97-111 | Rejects missing tags. Otherwise it re-indexes the retagged record and syncs its docInfo. |
| DocRepositories.RetagRegistersTags | apps/repository/js/DocRepository.ts:103-107 | The tag map is keyed by tag id, and each new tag is registered in the tag database. |
| DocRepositories.SyncDeleteDocInfo | apps/repository/js/DocRepository.ts:113-123 | Removes exactly that fingerprint from the index and from the persistence layer; the tag database is unchanged. |
| DocRepositories.AddThenDeleteRestoresIndex | apps/repository/js/DocRepository.ts:113-116 | Adding a new record and then deleting it gives back the index. |
| RepoAnnotations.ToRepoAnnotation | apps/repository/js/RepoAnnotations.ts:56-103 | Copies id, guid and created, and takes fingerprint and tags ({} when absent) from docInfo. It keeps the source as `original`. `meta` is set only for text and area highlights, `img` only for area highlights. |
| RepoAnnotations.RowsOf | apps/repository/js/RepoAnnotations.ts:34-48 | One row per annotation of a map, in the map's order. |
| RepoAnnotations.Highlights | apps/repository/js/RepoAnnotations.ts:29-31 | An absent highlight map counts as empty. |
| RepoAnnotations.Cards | apps/repository/js/RepoAnnotations.ts:32 | An absent flashcard map counts as empty. |
| RepoAnnotations.PageRows | apps/repository/js/RepoAnnotations.ts:29-48 | A page gives one row per annotation it holds, every row belonging to the document. |
| RepoAnnotations.PageRowsOrder | apps/repository/js/RepoAnnotations.ts:34-48 | Within a page, text highlights come first, then area highlights, then comments, then flashcards. |
| RepoAnnotations.Convert | apps/repository/js/RepoAnnotations.ts:21-54 | Gives one row per annotation, summed over pages, every row carrying the document's fingerprint and docInfo. |
| RepoAnnotations.RowCount | apps/repository/js/RepoAnnotations.ts:27-50 | The number of rows is the sum over pages of the four map sizes. |
| RepoAnnotations.PagesRowsOfDocument | apps/repository/js/RepoAnnotations.ts:27-50 | Rows of any run of pages belong to the document. |
| RepoAnnotations.PagesRowsAppend | apps/repository/js/RepoAnnotations.ts:27-50 | The rows of two runs of pages are those of each, concatenated, so rows follow page order. |
| RepoAnnotations.TextHighlightListed | apps/repository/js/RepoAnnotations.ts:34-36 | Every text highlight of every page appears among the rows. |
| RepoAnnotations.IsValid | apps/repository/js/RepoAnnotations.ts:105-107 | Every row is valid. |
| RepoAnnotations.ToTags | apps/repository/js/RepoAnnotations.ts:109-117 | No row gives no tags; a row gives its tag values in order. |
| RepoAnnotations.ToTagsOfRow | apps/repository/js/RepoAnnotations.ts:96-112 | A row's tags are its document's tags, or none when it has none. |
| CreateAnnotationHandlers.HandleIPC | web/js/flashcards/controller/handlers/CreateAnnotationHandler.ts:36-64 | A non-flashcard annotation, or a flashcard for another document, leaves the document unchanged. No outcome changes the document's information. |
| CreateAnnotationHandlers.HandleStoresCard | web/js/flashcards/controller/handlers/CreateAnnotationHandler.ts:46-51 | A flashcard for the open document fails exactly when its page or that page's flashcard map is missing. Otherwise it is stored under its id on that page, and no other page, map or flashcard changes. |
| CreateAnnotationHandlers.HandleIdempotent | web/js/flashcards/controller/handlers/CreateAnnotationHandler.ts:36-64 | Handling the same message twice equals handling it once. |
| AreaHighlightControllers.OnMessageReceived | web/js/highlights/area/controller/AreaHighlightController.js:44-54 | 'create-area-highlight' creates and 'delete-area-highlight' deletes. A missing payload or any other type is ignored. A failed create leaves the document unchanged. |
| AreaHighlightControllers.OnCreate | web/js/highlights/area/controller/AreaHighlightController.js:72-75 | Inserts the highlight under its id on the location's page; no other highlight or page changes. It fails exactly when the page or its map is missing. |
| AreaHighlightControllers.DeleteOne | web/js/highlights/area/controller/AreaHighlightController.js:90-91 | Removes the descriptor's id from its page's area highlights; other highlights and pages are unchanged. |
| AreaHighlightControllers.OnDelete | web/js/highlights/area/controller/AreaHighlightController.js:86-93 | Throws exactly when some descriptor's page or area map is missing. A first descriptor that throws leaves the document as it was. The document information is kept. |
| AreaHighlightControllers.DeleteOneKeepsDeletable | web/js/highlights/area/controller/AreaHighlightController.js:90-91 | A deletion never changes which descriptors can be deleted. |
| AreaHighlightControllers.OnDeleteAppend | web/js/highlights/area/controller/AreaHighlightController.js:86-93 | Deleting a list in two parts is deleting the first part and then the second. When the first part throws, the deletions it made are kept and the second part never runs. |
| AreaHighlightControllers.DeleteAbsentIsNoop | web/js/highlights/area/controller/AreaHighlightController.js:91 | Deleting an id the page does not have is a no-op. |
| AreaHighlightControllers.CreateThenDeleteRestores | web/js/highlights/area/controller/AreaHighlightController.js:72-93 | Creating a highlight under a new id and then deleting it gives back the document. |
| DockLayouts.InitialWidth | web/js/ui/doc_layout/DockLayout.tsx:16 | The panel's width, or 400 when it is missing or 0; never 0. |
| DockLayouts.CreateInitialStore | web/js/ui/doc_layout/DockLayout.tsx:7-24 | One entry per fixed panel id, keyed by and carrying that id. Its width comes from the last fixed panel with that id. |
| DockLayouts.StoreKeys | web/js/ui/doc_layout/DockLayout.tsx:11-17 | The store has an entry exactly for the ids of fixed panels. |
| DockLayouts.OnlyFixedPanelsCount | web/js/ui/doc_layout/DockLayout.tsx:13 | A panel that is not fixed does not affect the store. |
| PrioritizedComponentManagers.Highest | web/js/ui/prioritized/PrioritizedComponentManager.tsx:38-41 | Finds the first component of highest priority among those with a priority; none when no component has one. |
| PrioritizedComponentManagers.Render | web/js/ui/prioritized/PrioritizedComponentManager.tsx:23-63 | A component is shown exactly when the tour has ended, the lifecycle allows it, the hash is empty and some component has a priority. The one shown has the highest priority. `markShown` happens exactly when one is shown. |
| PrioritizedComponentManagers.LaterTieKeepsChoice | web/js/ui/prioritized/PrioritizedComponentManager.tsx:41 | A later component that does not rank strictly higher leaves the choice unchanged; the sort is stable. |
| PrioritizedComponentManagers.UnprioritisedIgnored | web/js/ui/prioritized/PrioritizedComponentManager.tsx:40 | Components without a priority never affect the choice. |

## Left out

- **Collaborators.** Serialization, uuid comparison, id hashing,
  percentages, typed-tag parsing, best-title choice, colour defaults, text and
  image rendering, the annotation-type parser and the clock are function
  parameters. Their own code is not part of this
  model, so their results are not constrained.
- **Floating point.** Numbers are integers. `Percentages.calculate` is a
  parameter, so fractional percentages and rounding are not modelled.
- **`Object.keys` order.** Insertion order is modelled. The JavaScript rule
  that integer-like keys come first, in ascending order, is not.
- **Unicode.** `toUpperCase` is modelled on ASCII letters only. The full
  Unicode case mapping is not part of this model.
- **Asynchrony.** Every `await` is sequential. The unawaited
  `datastore.delete` in `purge` is taken as an immediate delete.
- **Aliasing.** Mutation of shared objects (aliasing between the
  repository index, the record and its docInfo) is not modelled. Each update
  is a new value, and `new DocInfo(docInfo)` in `syncDocInfo` is a copy.
- **Return values.** The handler return value (`undefined`) and React
  elements are not modelled. The splash choice returns the chosen reference,
  not the element its `create()` builds.
- **Optional.** `Optional.of(…).get()` and `Preconditions.assertPresent` are
  taken as failing on null and undefined alike.
- **Progress.** `ProgressTracker` is modelled as a pair (completed,
  total).
- DocMetaSnapshotEventListeners.Step: the index records the document's uuid
  rather than its whole docInfo, because only the uuid is ever read back.
- DocMetaSnapshotEventListeners.Listen: the forwarded event is built without
  a batch, exactly as the code does (the input's batch is dropped).
- Datastores.GetDocMetas: `getDocMetaFiles` is the list of fingerprints
  passed in; the datastore object itself (its backends, `init`,
  `getDocMetaFiles` I/O) is not part of this model, nor is `Datastores.create`.
- DocRepositories.UpdateTagsDB: the tag database is a set of tags. The
  `Tags.toMap` keying by id is used only for the per-document tag map.
- DocRepositories.SyncDocInfo: the layer's `contains` and `getDocMeta` are
  read from one map, so the undefined-versus-null distinction of a missing
  DocMeta collapses to "absent".
- Flashcards.AttachFrom: one `now` serves for every page, where the code
  reads the clock once per card.
- TemporalObjects.Validate: the error messages of the type checks omit the
  `typeof` suffix; those checks can never fail.
- Rects.AdjustAxis: `end - start` on non-numbers is NaN, a simplification of
  JavaScript's numeric coercion of strings and booleans.
- PrioritizedComponentManagers.Render: `priority()` is taken as a value,
  read once per component. `LocalPrefs`, `SplashLifecycle` and the location
  hash are inputs. Analytics calls are not modelled.
- QueuedReactors.Once: its own contract states only that the queue is
  drained. What it resolves with is stated by OnceTakesFirstQueued and
  OnceTakesNextDispatch.
- QueuedReactors.DelegateDispatch: the delegate `Reactor` is taken as
  delivering to the listeners registered when dispatch starts, in
  registration order, and then dropping the one-shot listeners. A listener
  that adds or removes listeners while a value is being delivered is not
  modelled.
- Datastores.PurgeFrom: a document whose data is missing is taken to throw
  when its `docInfo` is read. What `DocMetas.deserialize` does with null is
  not part of this model.
- Utils.Apply: a delegate function that itself throws is not modelled.
  Only a missing function stops the loop.
- SyncQueues.Execute: tasks added while `execute` runs are not modelled.
  The pending list and the `total` used for percentages are fixed when
  `execute` starts.
- Styles.ParsePX: `Strings.empty` is taken as true exactly for null,
  undefined and the empty string. Its own code is not part of this model.
- CreateAnnotationHandlers: the `new Flashcard(...)` conversion of the
  incoming value, and the validation it performs, are not modelled. The
  value is used as given.
- The DOM and float helpers of `utils.js`, `Styles.positioning`, the
  `ipcRenderer` registration of `AreaHighlightController`, the logger, and
  the `DocMetaFileRefs`, `VersionedObject` and `DocMetaComparisonIndex`
  classes are not part of this model. They read the DOM, the environment
  or code outside the core.
