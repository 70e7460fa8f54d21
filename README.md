# Student record API: a Dafny model

This project models the student-record API of a small Express and Mongoose
server. It covers the four `/students` route handlers and the `Student` collection
they work on:

- `POST /students` creates a document from the request body.
- `GET /students` lists documents, filtered by an optional `grade` and an
  optional minimum `marks`.
- `PUT /students/:id` applies the body's paths to the document with that id and
  returns the updated document.
- `DELETE /students/:id` removes the document with that id.

The model has three modules:

- `Records` (records.dfy) defines the `Student` document. The schema only
  declares a type for each path, so every path is optional. The module also
  defines the request `Body` and two ways a body becomes a document.
  `FromBody` builds a new document. `Merge` is the `$set` update that
  `findByIdAndUpdate` applies.
- `Store` (store.dfy) models the Mongoose collection as an owned in-memory
  table. The `StudentStore` class holds the documents in insertion order, a
  counter for fresh ids, and a ghost set of every id handed out. Its methods
  `Save`, `Find`, `FindByIdAndUpdate` and `FindByIdAndDelete` change or read
  the table in place. Pure functions specify them:
  - `Select`: what `find(filter)` returns;
  - `Position`: where an id sits;
  - `Updated` and `Deleted`: the table after an update or a delete.
  Lemmas about these functions state the filter semantics and what an update
  or delete leaves unchanged.
- `Server` (server.dfy) holds the handlers. `BuildFilter` builds the filter
  object from the query the way JavaScript truthiness does: a value applies
  only when present and non-empty, so the marks text `"0"` still applies. Each
  handler returns a `Response`: a status code (201, 200, 404 or 500) and a
  payload. Every handler takes a `fault` flag: whether the collection call
  throws. A throw is always answered with status 500 and that handler's error
  text, and the collection is left as it was.

The code checks very little, and the model adds nothing to it:

- The code does not validate input, trim strings, check that marks are
  non-negative or check that `rollNumber` is unique.
- The code has no 400 or 409 responses. Every thrown error becomes a 500.
- The handler does not check that the `marks` threshold is an integer. A text
  that does not cast makes the query throw, which is the 500 path.

## Model

| member | source | states |
|---|---|---|
| `Records.FromBody` | server/server.js:34 | a new document carries the given id and exactly the body's schema paths |
| `Records.Merge` | server/server.js:60 | the `$set` update never changes the document's id |
| `Records.MergePaths` | server/server.js:60 | each path the body carries replaces the stored value; each path it does not carry is kept |
| `Records.MergeEmptyAndFull` | server/server.js:60 | an empty body changes nothing; a body carrying every path replaces the whole content |
| `Records.MergeIdempotent` | server/server.js:60 | applying the same update twice equals applying it once; resending a document's own content changes nothing |
| `Store.Matches` | server/server.js:46-49 | the store's test of `{ grade, marks: { $gte } }`: the empty filter admits every document; any document it admits has the equal grade and marks at or above the bound; a grade condition alone admits every equal grade, and a marks bound alone admits marks equal to the bound; a document missing the path never satisfies its condition |
| `Store.Updated` | server/server.js:60 | the table after an update: same size, the addressed document merged in its place, every document with another id where it was, no change for an unheld id |
| `Store.Deleted` | server/server.js:72 | the table after a delete: one document fewer when the id is held, all documents with another id kept, nothing new, no change for an unheld id |
| `Store.Select` | server/server.js:49 | `find(filter)` returns matching documents only, as an order-preserving subsequence of the table |
| `Store.Position` | server/server.js:60 | lookup by id finds a document holding that id, and finds nothing exactly when no document holds it |
| `Store.SelectCount` | server/server.js:49 | the list holds each matching document as often as the table does, and nothing else |
| `Store.SelectMembers` | server/server.js:46-49 | a document is listed iff it is stored and satisfies the filter |
| `Store.SelectAll` | server/server.js:45-49 | with no condition, the list is the whole table in order |
| `Store.SelectGrade` | server/server.js:47-49 | a grade condition lists exactly the stored documents whose grade equals it, case-sensitively |
| `Store.SelectMinMarks` | server/server.js:48-49 | a marks condition is inclusive: listed iff marks >= threshold; documents without marks are never listed |
| `Store.SelectBoth` | server/server.js:46-49 | both conditions together give the grade selection narrowed by the marks condition (their conjunction, in order) |
| `Store.SubseqDetermined` | server/server.js:49 | on a table of unique ids, two in-order selections with the same members are equal, so the list is determined |
| `Store.UpdatedSpec` | server/server.js:60 | on unique ids, an update keeps the ids, their uniqueness and the size; the documents with other ids are the same before and after; an unknown id leaves the table as it was |
| `Store.DeletedSpec` | server/server.js:72 | a delete of a held id removes exactly that document and keeps the rest in order; an unknown id changes nothing |
| `Store.StudentStore.constructor` | server/server.js:27 | the model's collection starts as an empty table with no id handed out, satisfying `Valid()` (the persistent collection may not start empty; see Left out) |
| `Store.StudentStore.Save` | server/server.js:34-35 | appends one document with the body's paths under an id never handed out before; existing documents are kept |
| `Store.StudentStore.Find` | server/server.js:49 | returns the selection of the current table and changes nothing |
| `Store.StudentStore.FindByIdAndUpdate` | server/server.js:60 | returns the post-update document (`new: true`) with the same id, or nothing for an unknown id; the table becomes `Updated` |
| `Store.StudentStore.FindByIdAndDelete` | server/server.js:72 | returns the removed document, or nothing for an unknown id; the table becomes `Deleted` |
| `Server.Truthy` | server/server.js:47-48 | the `if (grade)` / `if (marks)` test on query strings: absent and empty are falsy, every non-empty string (including "0" and "false") is truthy |
| `Server.BuildFilter` | server/server.js:45-48 | the filter's grade key is set iff the grade is truthy, and its marks key iff the marks text is truthy; it matches exactly the documents the query admits |
| `Server.ZeroThresholdApplies` | server/server.js:48 | the marks text "0" is truthy, so it applies a condition that excludes documents without marks |
| `Server.PostStudents` | server/server.js:32-40 | 201 with the new document: the body's paths, a fresh id, appended to the table; a throw gives 500 and leaves the table alone |
| `Server.GetStudents` | server/server.js:43-54 | 200 with exactly the admitted documents, with their multiplicities, in table order; with neither filter, the whole table; never modifies the collection; a throw gives 500 |
| `Server.PutStudent` | server/server.js:57-66 | 404 "Student not found" with no change for an unknown id; else 200 with the merged document, same id, all other documents kept; a throw gives 500 with no change |
| `Server.DeleteStudent` | server/server.js:69-78 | 404 with no change for an unknown id; else 200 "Student deleted successfully", exactly that document gone and the id no longer held; a throw gives 500 with no change |
| `Server.ListingDetermined` | server/server.js:46-49 | any answer shaped like the list handler's promise equals `find` applied to the built filter |
| `Server.DeleteTwice` | server/server.js:72-73 | after one delete the id is not held, so a second delete finds nothing and changes nothing |
| `Server.CreatedListedOnce` | server/server.js:34-49 | a created document with a fresh id appears exactly once in the unfiltered list |
| `Server.FilterExample` | server/server.js:46-49 | with marks 10, 20, 30 and grades A, B, A: grade A lists the first and third, marks 20 lists the second and third, both list the third |
| `Server.ScenarioAlice` | server/server.js:32-78 | create, then update marks to 90: id and roll number are kept; after the delete, the id is not found |

## Left out

- Express, CORS and body-parser setup, `mongoose.connect` and `app.listen`
  (server/server.js:1-16, 81). These are I/O and process start-up.
- `async`/`await` and concurrent requests. Each handler is one atomic step.
- Casting by Mongoose. Body paths arrive already cast to their schema types,
  and the `marks` query value arrives with the number it casts to. A cast that
  fails (a malformed id, a body path, or a threshold text), and any other
  thrown error, is the `fault` flag: status 500 and no change. The `details`
  text (`err.message`) is not modelled.
- JavaScript numbers are doubles. `rollNumber`, `marks` and the threshold are
  modelled as integers, so fractional values are not covered.
- ObjectId: ids are natural numbers from a counter. This keeps the property
  that a fresh id was never handed out before. The byte layout of ObjectId is
  not modelled.
- Query values given more than once (an array) and `null` body values are not
  modelled.
- Bracket-form (object) query values are not modelled. Express's extended
  query parser turns `?grade[$ne]=A` into an object, which is truthy, goes into
  the filter (server/server.js:47) and acts as a query operator in `find`
  (server/server.js:49). The model's query values are strings only.
- Update bodies with `$`-operator keys are not modelled. `findByIdAndUpdate`
  (server/server.js:60) wraps only the keys without a `$` in `$set`. Keys such
  as `$unset` (which removes a path) or `$inc` (which computes from the stored
  value) are applied as given. `Merge` models only the `$set` of plain schema
  paths, so it never removes a path.
- For plain keys, paths outside the schema are dropped by Mongoose's strict
  mode, so `Body` carries only schema paths. An `_id` or `__v` sent in a body
  is not modelled.
- The model's collection starts as an empty table. The real collection
  (server/server.js:14, 27) is persistent and may already hold documents at
  start-up. Every handler contract holds from any table where
  `StudentStore.Valid()` holds, not only from the empty one.
- `find` returns documents in natural order. The model uses insertion order.
- The client (client/src/components/StudentForm.jsx, client/src/App.jsx) is
  not part of this model. It is UI and network code with no API logic.
