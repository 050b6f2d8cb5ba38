# Note store model

A Dafny model of the in-memory note repository of a small note-taking
backend (`server/models/Note.js`). The repository keeps an ordered
collection of notes and a process-wide id counter. It validates untrusted
request bodies against a four-field schema (`title`, `content`,
`created_at`, `updated_at`) and offers `create`, `findAll`, `findById`,
`update` and `delete`.

Files:

- `wrappers.dfy`: `Option` (a lookup miss, JavaScript `null`) and `Result`
  (a thrown `Error`).
- `js_values.dfy`: the JavaScript values a request body can hold, with
  truthiness, `typeof`, property reads and object spread. Objects are
  finite maps, and a missing key reads as `undefined`.
- `schema.dfy`: the schema table, the validator as a specification function
  (`Validate`) and as the loop the source runs (`ValidateFields`), and
  lemmas about what validation accepts and returns.
- `notes.dfy`: stored notes, the store invariant, lookup and removal on
  the collection, and the class `NoteStore`. Its fields `notes` and
  `idCounter` are the module-level variables of the source, and its
  methods are the static operations.
- `walkthrough.dfy`: three client methods that take notes through create,
  update and delete using only the contracts.

Two behaviours of the code are modelled as written:

- The counter is post-incremented before validation
  (server/models/Note.js:24-25), so a rejected `create` still uses up an id.
- `update` merges the caller's fields over the stored data and revalidates
  (server/models/Note.js:95-98). A caller-supplied `created_at` therefore
  replaces the stored one, so `created_at` can change after creation; only
  `updated_at` is re-stamped. The model states no order between the two
  timestamps.

The store invariant (`StoreInvariant`) says the following. The counter is
at least 1. Every stored id lies between 1 and the counter. Stored ids are
distinct. Every stored note's data has only schema keys, a non-empty
string title and content, and string timestamps. `create`, `update` and
`delete` preserve it. The counter only grows, and a new note takes the
counter's old value, so an id is never handed out twice, even after a
delete.

## Model

| member | source | states |
|---|---|---|
| `Schema.ValidateFields` | server/models/Note.js:33-57 | The validation loop over the schema returns exactly what the specification `Validate` gives: the first rejection, or the validated copy of the base record |
| `Schema.ValidateAccepts` | server/models/Note.js:36-48 | Validation succeeds if and only if every schema field passes its required check and its type check |
| `Schema.ValidateResult` | server/models/Note.js:50-56 | On success the result is the base record with every schema field that has a defined input value overwritten; absent fields and all non-schema properties keep the base record's values |
| `Schema.ValidateFirstFailure` | server/models/Note.js:36-48 | On failure the error is the one from the first field, in schema order, that fails a check; every earlier field passes |
| `Schema.ValidateIgnoresOtherKeys` | server/models/Note.js:36-38 | Only schema-field properties of the input matter; extra keys such as `id` make no difference to the outcome |
| `Schema.NoteFieldNames` | server/models/Note.js:8-13 | The set of note field names is exactly the set of names declared in the schema table |
| `Schema.NoteValidation` | server/models/Note.js:8-13 | For the note schema: accepted if and only if title and content are non-empty strings and each timestamp is undefined or a string; the result keys stay within base keys plus schema fields, and each schema field takes the input's defined value or else keeps the base value |
| `Schema.FalsyTitleIsRequired` | server/models/Note.js:40-43 | A falsy title (absent, `""`, `0`, `false`, `null`) fails with `Required("title")`, whose message is "title is required.", whatever the rest of the input holds; the required check comes before the type check |
| `Schema.NonStringTitleIsWrongType` | server/models/Note.js:45-48 | A truthy title that is not a string fails with `WrongType("title", "string")`, whose message is "title must be a string.", before content is examined |
| `Schema.FalsyContentIsRequired` | server/models/Note.js:36-43 | With an acceptable title, a falsy content fails with `Required("content")`, whose message is "content is required." |
| `Schema.NonStringTimestampIsWrongType` | server/models/Note.js:45-48 | A defined `created_at` that is not a string, `null` included, fails with "created_at must be a string." once title and content pass |
| `JsValues.Spread` | server/models/Note.js:95 | Object spread: the result has the keys of both objects, and every property of the second one, even an explicitly undefined one, wins |
| `Notes.IndexOf` | server/models/Note.js:112-113 | Returns the position of the first note whose id equals the key, or -1 exactly when no note matches; an unparsable key matches nothing |
| `Notes.RemoveAt` | server/models/Note.js:115 | Removing one element shortens the sequence by one and keeps the others in their order |
| `Notes.NewNoteSpec` | server/models/Note.js:23-28 | A note is built if and only if the body passes validation from an empty record; it then has the given id, the body's title and content, schema-only keys, and both timestamps equal to the current time whatever the body said; otherwise the validator's error is returned unchanged |
| `Notes.ReviseSpec` | server/models/Note.js:95-98 | Updating a well-formed note succeeds if and only if the merged record passes the schema; the result keeps the id, stays well formed, gets `updated_at` equal to the current time, and title, content and `created_at` take the caller's defined values or keep the stored ones |
| `Notes.ReviseWithoutFields` | server/models/Note.js:95-98 | An update that supplies no schema field always succeeds and changes only `updated_at`; omitted fields are not re-required |
| `Notes.CreateKeepsInvariant` | server/models/Note.js:24-27 | Appending the new note under the old counter value and advancing the counter preserves the store invariant (distinct ids below the counter, well-formed data) |
| `Notes.IndexOfAppended` | server/models/Note.js:84 | A note appended with an id above every stored id is found by a lookup of its id, at the end of the collection |
| `Notes.ReviseKeepsInvariant` | server/models/Note.js:95-98 | Replacing a stored note by its successful revision preserves the store invariant |
| `Notes.IndexOfAfterReplace` | server/models/Note.js:91-96 | Replacing a note by one with the same id leaves every lookup at the same position |
| `Notes.DeleteKeepsInvariant` | server/models/Note.js:115 | Removing any stored note preserves the store invariant |
| `Notes.IndexOfAfterRemove` | server/models/Note.js:112-115 | Once the note a key finds is removed, that key finds nothing, because ids are distinct |
| `Notes.IndexOfOtherAfterRemove` | server/models/Note.js:115 | A lookup that did not find the removed note finds the same note afterwards, one place earlier if it stood after it |
| `Notes.NoteStore.constructor` | server/models/Note.js:1-2 | A fresh store has no notes, its counter is 1, and the invariant holds |
| `Notes.NoteStore.FindAll` | server/models/Note.js:76-78 | Returns the stored collection's value, in insertion order; reading changes nothing |
| `Notes.NoteStore.FindById` | server/models/Note.js:83-85 | Returns the first stored note whose id equals the key, and returns `None` (null) exactly when no stored note has that id |
| `Notes.NoteStore.Create` | server/models/Note.js:62-70 | The counter rises by exactly one on every call, rejected ones included. On success one note is appended with the old counter as its id, above every stored id, and a lookup of that id finds it. On failure the collection is unchanged and the validator's error is returned. The invariant is kept |
| `Notes.NoteStore.Update` | server/models/Note.js:90-104 | An unknown key returns `None` and changes nothing. A rejected merge returns the error and changes nothing. A successful one replaces only the found note with its revision, keeps the order, length and all other notes, leaves the counter alone, and the key then finds the revised note |
| `Notes.NoteStore.Delete` | server/models/Note.js:109-121 | Returns true if and only if some note has the key. If so, exactly that note is removed and the rest keep their order; otherwise nothing changes. The counter is untouched and the key finds nothing afterwards |

## Left out

- HTTP routing (`server/routes/api/notes.js`): the Express handlers, `async`/`await` and the choice of status codes 200/201/404/422/500 are transport plumbing around the calls modelled here.
- The response envelope (`server/Helpers/ResponseHelper.js`) only builds `{status, message, data}` and decides nothing.
- The wall clock: `new Date().toISOString()` becomes a `now: string` parameter, and nothing is claimed about timestamps increasing.
- `parseInt`: the lookup key is an `Option<int>` with `None` standing for NaN. Leading whitespace, trailing characters and hexadecimal prefixes are not modelled.
- Floating-point numbers: `Num` holds integers, so NaN, `-0` and fractions are not modelled. They would only affect truthiness, which is 0 for every falsy number here.
- The `try`/`catch` blocks only rethrow an error with the same message, so they are modelled as passing the validator's error through unchanged.
- Notes.NoteStore.Create: the counter is an unbounded integer. In the source it is a JavaScript number, so past `Number.MAX_SAFE_INTEGER` (2^53 - 1) `idCounter++` stops advancing and ids repeat. That precision loss is not modelled: the counter rising by one, and ids being distinct and never reused, hold only below that bound.
- Notes.NoteStore.Update: the request body is taken to be a parsed JSON object (a `Record`). A `null` or `undefined` body is not modelled. In the source, `create` with such a body throws a `TypeError` when it reads `fields[field]`, and the error is rethrown. `update` with such a body spreads it as nothing, succeeds, and re-stamps `updated_at`.
- Notes.NoteStore.FindAll: returns the collection's value, not the live array. The aliasing that lets a caller mutate stored notes through the returned array is not modelled.
- Notes.NoteStore.FindById: returns the note's value, not the live object shared with the store.
- Notes.NoteStore.Update: updates the stored note in place, which is modelled as replacing the element of the collection at the found position.
