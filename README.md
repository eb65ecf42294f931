# Student records: the store and the client reducer

This project models the two stateful parts of a small student-records
application (`Piar.py`, which despite its name holds an Express server and
React code):

- **The server's record store.** The module-level `students` array is
  seeded with two records. Five HTTP handlers act on it: list, create,
  read one, update (a shallow merge into the first matching slot) and
  delete (a filter that drops every match).
  It is modelled as the class `Server.Store`, whose field `students: seq<Record>`
  the handler methods reassign. Read one and update answer a `Lookup`, either
  `Found(record)` or `NotFound`. The HTTP layer turns `NotFound` into a 404.
- **The client's reducer.** This is the pure `reducer` over
  `{ students, selectedStudent }`, with five named actions and a default case.
  It is modelled as `Client.Reduce` over the datatypes `State` and `Action`.

A record is a `map<string, string>`, so JavaScript's object spread
`{ ...a, ...b }` is map override `a + b` (`Records.Merge`), where the right
side wins. `r.id === x` is `Records.HasId`: a record without an `id` field
never matches a string id. In the reducer's update, `s.id === payload.id`
compares two possibly absent ids, and two absent ids are equal
(`undefined === undefined`). The model compares the `Option` values from
`Records.IdOf` to get the same result.

The module `Sync` relates the two parts. After each request the client
dispatches the server's answer. The lemmas there say when the cached list
equals the server's store again.

Two behaviours of the code are kept as written:

- A body `id` is not ignored. The spread puts the body last, so in update a
  body `id` renames the record (Piar.py:141), and in create it replaces the
  fresh token (Piar.py:124).
- Nothing makes ids unique. Read and update use the first match, and delete
  drops every match. The lemmas that need unique ids (`Sync.MirrorUpdate`,
  `Server.CreateKeepsUnique`, `Server.UpdateKeepsUnique`) take uniqueness as
  a premise. `Sync.DuplicateIdsDiverge` shows what happens without it.

The client starts from `Client.Initial`, the `initialState` of
Piar.py:166-169: no students cached and none selected. After a create the
cache and the store agree again by `Client.ReduceAddStudent` and
`Server.Store.Create`, which both append the created record at the end.
Every stored record has an `id` field (`Server.Store.Valid`), which is why
the list view's delete button always sends a string id
(`Sync.MirrorDeleteListed`).

## Model

| member | source | states |
|---|---|---|
| `Records.IdOf` | Piar.py:181 | `s.id` is absent exactly when the record has no `id` field, and is that field's value otherwise |
| `Records.HasId` | Piar.py:130 | `s.id === id` holds exactly when the record has an `id` field equal to the string id |
| `Records.Without` | Piar.py:149 | the filter never lengthens the list and no survivor carries the id; with `WithoutMembers`, `WithoutConcat` and `WithoutSingle` this pins the filter down (the reducer's filter at Piar.py:187 is the same) |
| `Records.Merge` | Piar.py:141 | the spread's key set is the union; every body field wins; every other field of the old record is kept |
| `Records.WithoutMembers` | Piar.py:149 | the filter keeps no record carrying the id, keeps every record not carrying it, and adds nothing |
| `Records.WithoutConcat` | Piar.py:149 | filtering distributes over concatenation, so the surviving records keep their relative order |
| `Records.WithoutSingle` | Piar.py:149 | one record survives the filter exactly when it does not carry the id |
| `Records.WithoutAbsent` | Piar.py:148-150 | deleting an id no record carries leaves the collection unchanged |
| `Records.WithoutIdempotent` | Piar.py:148-150 | deleting an id twice gives the same collection as deleting it once |
| `Records.WithoutKeepsUnique` | Piar.py:148-150 | deleting preserves id uniqueness |
| `Server.FirstIndexOf` | Piar.py:139 | `findIndex`: the result is an index whose record carries the id and no earlier record does; not found exactly when no record carries it |
| `Server.FirstIndexOfAppend` | Piar.py:125 | after a push, the first match is the old first match if there was one, else the pushed record if it matches, else none |
| `Server.FirstIndexOfUnique` | Piar.py:130 | `find` returns the record at the index that matches with no match before it |
| `Server.NewRecord` | Piar.py:124 | the created record has the body's fields plus `id`; body fields (including a body `id`) win; without a body `id` the id is the fresh token |
| `Server.Seed` | Piar.py:110-113 | the initial store is exactly two records with ids "1" then "2", each with fields id, name, needs, report |
| `Server.Store.constructor` | Piar.py:110-113 | the store starts as the seed records |
| `Server.Store.List` | Piar.py:119-121 | list answers the current store verbatim and changes nothing |
| `Server.Store.Create` | Piar.py:123-127 | create never fails; it appends exactly the new record at the end, leaves earlier records unchanged, and returns that record |
| `Server.Store.Read` | Piar.py:129-136 | read one answers the first record carrying the id, or not found when none does; the store is unchanged |
| `Server.Store.Update` | Piar.py:138-146 | on a present id only the first matching slot becomes `old + body`, the length and every other slot are unchanged, and the merged record is returned; on an absent id the store is unchanged and the answer is not found |
| `Server.Store.Delete` | Piar.py:148-151 | delete never fails and leaves exactly the filtered store; every stored record still has an id |
| `Server.DeleteKeepsIds` | Piar.py:149 | the filter keeps the store invariant that every record has an `id` field |
| `Server.CreateThenRead` | Piar.py:123-135 | read of a created record's id finds that record at the end, with every body field, provided no earlier record had the id |
| `Server.UpdateThenRead` | Piar.py:138-142 | after an update whose body does not rename the record, the id is still first found in the same slot |
| `Server.SeedDeleteFirst` | Piar.py:110-113 | from the seeded store, delete of id "1" leaves exactly the second seed record |
| `Server.DeleteThenRead` | Piar.py:148-150 | after delete, read of the same id finds nothing |
| `Server.UpdateKeepsUnique` | Piar.py:138-142 | an update whose body does not rename the record keeps ids unique |
| `Server.CreateKeepsUnique` | Piar.py:123-125 | create keeps ids unique when the new record's id was not in use |
| `Client.ReplaceMatching` | Piar.py:180-182 | `map` keeps the length; every entry whose id equals the payload's becomes the payload; every other entry is kept in place |
| `Client.Reduce` | Piar.py:171-194 | only SET_SELECTED changes `selectedStudent` and it leaves `students` alone; an unrecognised action returns the state unchanged |
| `Client.ReduceSetStudents` | Piar.py:173-174 | SET_STUDENTS replaces the list and nothing else |
| `Client.ReduceAddStudent` | Piar.py:175-176 | ADD_STUDENT appends the payload at the end and leaves every earlier entry unchanged |
| `Client.ReduceUpdateIdempotent` | Piar.py:177-183 | UPDATE_STUDENT twice with one payload equals once |
| `Client.ReduceUpdateAbsent` | Piar.py:177-183 | UPDATE_STUDENT whose payload id matches no entry leaves the state unchanged |
| `Client.ReduceDeleteIdempotent` | Piar.py:184-188 | DELETE_STUDENT is idempotent |
| `Client.ReduceAddThenDelete` | Piar.py:175-188 | DELETE_STUDENT of an added record's id gives the same state as the delete without the add |
| `Sync.MirrorDeleteListed` | Piar.py:245-271 | a listed record always has a string id; DELETE_STUDENT of it after the server's delete makes the cache equal the filtered store, and that record is in neither |
| `Sync.MirrorUpdate` | Piar.py:316-318 | with unique ids and a body that keeps the id, dispatching the merged record as UPDATE_STUDENT (which replaces every match) gives exactly the server's first-match update |
| `Sync.DuplicateIdsDiverge` | Piar.py:181 | with two records sharing an id, the reducer's replace-all and the server's replace-first give different lists |

## Left out

- The OpenAPI document and the documentation UI that serves it. They are
  static text and foreign library calls.
- Express routing, JSON body parsing, status codes (200, 201, 204, 404) and
  the 404 message text. The model keeps the effect on the store and the
  found or not-found outcome.
- `Date.now().toString()`. It is a clock read, so `Server.Store.Create` takes
  the fresh token as the parameter `freshId`. The model proves nothing about
  the token being unique, because the code does not ensure it.
- Field values other than strings. JSON bodies may carry numbers or nested
  objects. A record here maps field names to strings.
- Field order inside a record, which only shows in the serialised JSON.
  Object identity is also left out: the model has values, not shared references.
- The port, `app.listen`, the axios client, the React context and provider,
  routing, and the `App`, `StudentList`, `StudentForm` and `StudentReport`
  views. These are network I/O, asynchronous callbacks and UI. The `Sync`
  lemmas take as given the dispatches those views make after a request
  succeeds. They do not model the ordering of concurrent responses.
- A SET_SELECTED payload of `null`. The views dispatch only fetched records.
- The setup shell commands at the end of the file.
