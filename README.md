# Note store, note creation, actor sync and object schema of a federated note server

This project models, in Dafny, the part of the server of a single-user
federated (ActivityPub-style) note publisher that is given as code:

- **The note table** (`server/src/infra/noteRepository.ts`). Notes are rows keyed
  by `id`, with a unique constraint on the nullable `federatedId` column.
  `NoteRepository.NoteStore` is a class whose field `rows` maps each id to
  its row. Its invariant `Valid()` states the primary key and the unique
  constraint; absent `federatedId` values may repeat, as NULLs may in an SQL
  unique index. `Create`, `Save` and `Delete` update `rows` in place.
  `FindById`, `FindCount` and `FindLatest` are functions that read it.
  `NoteRow.FromModel` and `NoteRow.ToModel` are the field-by-field mapping.
- **Note creation** (`server/src/handler/note.ts`). `NoteHandler.CreateNote`
  checks the body against the `{ content: string }` schema (400), then
  compares the caller's `uid` with the configured user id (401). It then
  builds one note and inserts it into the store, and answers 201. The fresh
  ULID and the clock reading are parameters.
- **Actor sync** (`server/src/handler/actor.ts`). `ActorHandler.SyncActor`
  starts after the fetch. It picks the name (`name`, falling back to
  `preferredUsername`) and derives the stored identifier: a bare name for a
  URL with the prefix `https://<domain>`, otherwise `name@host`. It then
  saves one record.
- **The ActivityStreams object schema** (`server/src/protocols/ap/object.ts`).
  `ApObjectSchema.IsApObject` is the acceptance predicate over a small JSON
  datatype (`JsonValue.Json`). `ParseApObject` yields the typed `ApObject`.

Modelling choices that follow the code:

- `findLatest` passes `skip: page * perPage` and `take: perPage` to the
  ORM's `find`. The ORM applies either option only when it is non-zero.
  So a `perPage` of 0 puts no limit on the page, and `Page` models exactly
  that. The bound `|r| <= perPage` is stated for `perPage > 0`.
- The order among notes with equal `createdAt` is not constrained by the
  contracts of `Listing` and `FindLatest`. Each page is a query of its own,
  and the database may break such ties differently in each. So the lemmas
  that relate several pages (`EveryNoteIsOnItsPage`, `PagesAreDisjoint`)
  require that no two of the user's notes share a `createdAt`.
  `ListingIsTheQueryOrder` shows that under that condition every
  newest-first order of the user's notes is the listing. The listing is
  built from a map, so `Listing` and `FindLatest` are ghost functions.
- `save` is an upsert. When it updates an existing row, the ORM skips
  properties whose value is `undefined`, so a note without a `federatedId`
  keeps the stored one (`SavedRow`). It can still fail on the
  `federatedId` unique constraint, in which case the table is unchanged.
- `syncActor` serialises the whole fetched document into `rawData`, so the
  fetch result is a JSON value. The handler's reads of it are
  `ReadActorDocument`.
- `createNote` reads `ctx.state.auth.uid` without a guard. When no
  authentication state was set, as the middleware in
  `server/test/handlers.spec.ts:29-38` allows, that read throws. The model
  reports this as `Raised(AuthStateMissing)`, not 401. An insert that the
  table rejects (a repeated id) likewise escapes the handler as
  `Raised(InsertRejected)`.
- The test at `server/test/handlers.spec.ts:117-127` expects a `Create`
  activity to be delivered to each follower. `createNote`
  (`server/src/handler/note.ts:24-32`) makes no delivery call, so the model
  follows the code and has no fan-out.
- In `syncActor` the locality test is `url.startsWith("https://" + domain)`
  on the requested URL, while the host comes from the document's own `url`.
  `PrefixTestAcceptsLongerHost` shows that every host which merely begins
  with the local domain counts as local.

## Model

| member | source | states |
|---|---|---|
| `NoteRepository.NoteRow.FromModel` | server/src/infra/noteRepository.ts:22-30 | converting a note to a row and back gives the same note: all five fields are copied unchanged |
| `NoteRepository.RowRoundTrip` | server/src/infra/noteRepository.ts:32-40 | converting a row to a note and back gives the same row |
| `NoteRepository.SortNewestFirstCorrect` | server/src/infra/noteRepository.ts:58 | the `createdAt DESC` ordering yields a permutation of its input, newest first; distinct ids stay distinct |
| `NoteRepository.InsertNewestFirstSorted` | server/src/infra/noteRepository.ts:58 | inserting one note into a newest-first list keeps it newest first |
| `NoteRepository.InsertNewestFirstPermutes` | server/src/infra/noteRepository.ts:58 | inserting one note adds exactly that note and keeps every other |
| `NoteRepository.Page` | server/src/infra/noteRepository.ts:59-60 | a page holds the matches from position `skip` on, in order; it holds at most `take` of them, or all remaining ones when `take` is 0 |
| `NoteRepository.NoteStore.constructor` | server/src/infra/noteRepository.ts:4-20 | an empty table satisfies the primary key and the `federatedId` unique constraint |
| `NoteRepository.NoteStore.FindById` | server/src/infra/noteRepository.ts:67-73 | returns a note exactly when a row has that id; the note has that id and is the one the row stores; otherwise `undefined` |
| `NoteRepository.NoteStore.Listing` | server/src/infra/noteRepository.ts:56-58 | the notes of a user, newest first: every stored note of that user appears, each once, and nothing else does |
| `NoteRepository.NoteStore.FindCount` | server/src/infra/noteRepository.ts:64-66 | equals the number of stored notes whose `userId` matches, the length of that user's listing |
| `NoteRepository.NoteStore.FindLatest` | server/src/infra/noteRepository.ts:49-62 | returns only stored notes of that user, newest first; it is the run of the listing that starts after `page * perPage` notes, at most `perPage` long when `perPage > 0` |
| `NoteRepository.NoteStore.Create` | server/src/infra/noteRepository.ts:45-48 | fails, leaving the table unchanged, exactly when the id exists or the present `federatedId` is held by another row; otherwise adds that one row, and `findById` then returns the note; the creating user's `findCount` grows by one and every other user's stays the same |
| `NoteRepository.SavedRow` | server/src/infra/noteRepository.ts:74-77 | the row `save` leaves stores the note, except that an update keeps the stored `federatedId` when the note's is `undefined`; an insert stores the note as it is |
| `NoteRepository.NoteStore.Save` | server/src/infra/noteRepository.ts:74-77 | upsert by id: afterwards `findById(note.id)` is the note, but keeps the old `federatedId` when an existing row is updated with none. Every other id finds what it found before. It fails, changing nothing, when another row holds the `federatedId` |
| `NoteRepository.NoteStore.Delete` | server/src/infra/noteRepository.ts:78-80 | removes only the row with that id; every other id finds what it found before; deleting an absent id changes nothing; removing a stored note lowers its user's `findCount` by one and leaves every other user's unchanged |
| `NoteRepository.NewestFirstUnique` | server/src/infra/noteRepository.ts:58 | two newest-first orders of the same notes with pairwise distinct `createdAt` are the same sequence |
| `NoteRepository.ListingIsTheQueryOrder` | server/src/infra/noteRepository.ts:56-60 | when no two of the user's notes share a `createdAt`, any newest-first permutation of them equals the listing, so every paged query sees the same order |
| `NoteRepository.EveryNoteIsOnItsPage` | server/src/infra/noteRepository.ts:59-60 | with `perPage > 0` and no two of the user's notes sharing a `createdAt`, the note at position `i` of the listing is returned by page `i / perPage` |
| `NoteRepository.PagesAreDisjoint` | server/src/infra/noteRepository.ts:59-60 | with `perPage > 0` and no two of the user's notes sharing a `createdAt`, two different pages never return the same note |
| `NoteHandler.ParseCreateNoteRequest` | server/src/handler/note.ts:10-18 | the body is accepted exactly when it is an object whose `content` is a string, and the result is that string |
| `NoteHandler.RequestRoundTrip` | server/src/handler/note.ts:10-15 | the body `{ content }` is accepted and yields `content` |
| `NoteHandler.ExtraKeysIgnored` | server/src/handler/note.ts:10-15 | keys other than `content` do not change acceptance or the result |
| `NoteHandler.OnlyObjectsAccepted` | server/src/handler/note.ts:15-18 | a body that is not a JSON object is rejected |
| `NoteHandler.NewNote` | server/src/handler/note.ts:24-29 | the note has the fresh id, the clock reading, the request's content and the local user's actor URL `https://<domain>/u/<userName>`. It has no `federatedId`, so no table can hold it already and only a repeated id can reject its insert |
| `NoteHandler.CreateNote` | server/src/handler/note.ts:9-33 | an invalid body gives 400 whoever calls; then a caller other than the configured user gives 401; on both, no note is stored. Otherwise the handler inserts one note and answers 201. The note has the request's `content`, `userId` `https://<domain>/u/<userName>`, the given id and time, and no `federatedId` |
| `ActorHandler.UnreadKeysIgnored` | server/src/handler/actor.ts:12-27 | the handler reads only `name`, `preferredUsername`, `url`, `inbox`, `summary`, `publicKey.publicKeyPem` and `icon.url` (`ReadActorDocument`): a key of the document outside those seven does not change what it reads |
| `ActorHandler.ActorName` | server/src/handler/actor.ts:12-15 | the name is `name` when non-empty, otherwise `preferredUsername`; none when both are absent or empty |
| `ActorHandler.ActorUserId` | server/src/handler/actor.ts:18-20 | the bare name when the requested URL has the prefix `https://<domain>`; otherwise `name@host` with the host of the document's `url`, or `name@` without a `url`; an unparsable `url` is an error |
| `ActorHandler.RemoteUserIdSplits` | server/src/handler/actor.ts:20 | a remote identifier `name@host` splits at its last `@` back into the name and the host |
| `ActorHandler.PrefixTestAcceptsLongerHost` | server/src/handler/actor.ts:18-19 | for every domain, every requested URL `https://<domain>` followed by anything gets the bare name, so a host that merely begins with the local domain (`example.com.evil.test` for `example.com`) counts as local |
| `ActorHandler.ActorRecordFor` | server/src/handler/actor.ts:12-27 | fails with 400 "No name for actor" when no name is available, before any URL parsing. On success the record holds the name, the derived `userId` and the serialisation of the whole fetched document. It copies `inbox`, `summary`, `url`, `publicKey.publicKeyPem` and `icon.url` |
| `ActorHandler.UnreadKeysOnlyReachRawData` | server/src/handler/actor.ts:12-27 | two documents that differ only at a key the handler does not read give the same outcome, and records that differ only in `rawData` |
| `ActorHandler.ActorRepository.Save` | server/src/handler/actor.ts:17-28 | a save appends exactly that record to those saved before |
| `ActorHandler.SyncActor` | server/src/handler/actor.ts:5-29 | a fetch with no data, falsy data or an error fails with 400 "Failed to get actor" and saves nothing; a failed derivation saves nothing; success saves exactly the derived record, once |
| `ApObjectSchema.IsApObject` | server/src/protocols/ap/object.ts:13-22 | an accepted value is an object holding `type`, `id` and `content`, and no key of the schema holds `null` |
| `ApObjectSchema.Strings` | server/src/protocols/ap/object.ts:19-20 | an array is read as strings exactly when every element is a string, element by element |
| `ApObjectSchema.ParseApObject` | server/src/protocols/ap/object.ts:13-22 | accepts exactly the values meeting every per-key condition: `type`, `id` and `content` are strings, `url` is absent or a string, `to` and `cc` are absent or arrays of strings. The parsed object carries the input's known keys unchanged |
| `ApObjectSchema.StringsRoundTrip` | server/src/protocols/ap/object.ts:19-20 | an accepted array read as strings and written back is the same array |
| `ApObjectSchema.StringArrayRoundTrip` | server/src/protocols/ap/object.ts:19-20 | strings written as a JSON array read back as the same strings |
| `ApObjectSchema.ParseToJson` | server/src/protocols/ap/object.ts:4-22 | every `ApObject` written as JSON is accepted and parses back to itself |
| `ApObjectSchema.UnknownKeysIgnored` | server/src/protocols/ap/object.ts:14-21 | a key outside the schema neither causes rejection nor changes the result |
| `ApObjectSchema.NullUrlRejected` | server/src/protocols/ap/object.ts:18 | an explicit `null` for `url` is rejected; only absence is optional |
| `ApObjectSchema.EmptyAudienceAccepted` | server/src/protocols/ap/object.ts:19-20 | empty `to` and `cc` arrays are accepted |

## Left out

- The federation engine is not part of this model: signing, delivery, fan-out to followers, the retry scheduler, inbox ingestion, and the follow, share and inbox stores. None of their code is given.
- `server/index.ts` is not part of this model. It only wires up the process: the Firebase admin client, the SQLite data source, the HTTP/HTTPS listeners and the TLS files.
- `server/src/handler/ap/delivery.ts` is not part of this model. It reads a key file at load time and makes a signed network POST through code that is not given.
- The network fetch of `getActor` is an input (`FetchResult`). So are the URL parser's `hostname` (`None` when `new URL` throws) and `JSON.stringify`. `ulid()` and `Date.now()` are parameters of `CreateNote`.
- The actor repository's storage is not part of this model (its code is not given). `ActorRepository` only records the records saved to it, in order.
- `ActorHandler.ReadActorDocument`: a non-string value at a key the handler reads is read as absent. JavaScript would use such a value (for example a numeric `name`) as it is.
- `ActorHandler.SyncActor`: the warning logged through `ctx.log.warn(error)` when the fetch fails is not modelled, because logging is output only.
- ORM and SQLite internals are not modelled: transactions, which error is reported when both constraints are violated (`Create` reports only failure), and the order among equal `createdAt`, which may differ from one query to the next.
- The length 100 declared on the `id` column is not modelled, because SQLite does not enforce declared lengths.
- `NoteStore.FindLatest`: `page` and `perPage` are natural numbers; negative or fractional values are not modelled.
- `createdAt` is an unbounded integer; JavaScript's floating-point numbers are not modelled.
- The JSON datatype has real numbers and no `undefined`; an absent key stands for `undefined`. zod's error objects are not modelled; a rejection is an outcome value.
- Koa's handling of escaped exceptions is not modelled. `CreateNote` and `SyncActor` report them as `Raised(...)` or `InvalidProfileUrl` without a status code.
- `NoteStore.Listing` and `NoteStore.FindLatest` are ghost functions: they are not executable, because the rows live in a map, which has no order to list them in.
