# Attendance service: a Dafny model of its request-handling core

The service keeps attendance events (a student id and a free-form timestamp, plus a class id)
in one SQLite table, `attendance(id, studentId, timestamp, classId)`, and exposes create,
list-all, search, update and delete over HTTP. This project models what sits under the HTTP
and database plumbing of `index.js`:

- the raw-body parser `parseAttendanceData` (`parser.dfy`, module `Parser`), with JavaScript's
  `String.prototype.split` written out as `Split`;
- the JavaScript truthiness tests the handlers validate with (`js.dfy`, module `Js`);
- the table and the effect of the INSERT, UPDATE and DELETE statements on it (`table.dfy`,
  module `Table`): a class `AttendanceTable` holding the rows in storage order and the next
  AUTOINCREMENT id, whose invariant `Valid()` says that ids strictly increase along the rows and
  are all below `nextId`;
- the search handler's step-by-step query builder, and how the store reads and evaluates the
  SELECT statements the service issues (`query.dfy`, module `Query`): the statement is built as
  text plus a parameter list, the store parses it back into conditions (`ParseSelect`), and
  `Select` keeps the rows that satisfy every condition; SQL `LIKE` is modelled with its `%` and
  `_` wildcards;
- the five handlers as methods returning a `Response` (`handlers.dfy`, module `Handlers`).
  A store failure is an explicit boolean `storeFails`: the handler answers 500 with the
  source's message and the table is unchanged.

Two details of the code that the model keeps:

- the date filter is `timestamp LIKE date + '%'`, so a `%` or `_` in the date acts as a
  wildcard. The model keeps the wildcards and proves that the filter means "the timestamp
  starts with the date" only for dates without them (`Query.SearchByDatePrefix`);
- `split(',')` cuts the body at every comma and only the first two pieces are kept, so the
  timestamp stops at a second comma and further fields are dropped.

## Model

| member | source | states |
|---|---|---|
| Parser.Split | index.js:35 | `split(',')` yields at least one piece, no piece contains the separator, and there is exactly one piece iff the text has no separator |
| Parser.JoinSplit | index.js:35 | splitting loses nothing: joining the pieces with the separator gives back the text |
| Parser.ParseAttendanceData | index.js:34-37 | studentId is the text before the first comma; the timestamp is absent iff there is no comma, otherwise it is the text between the first comma and the second comma or the end; without a comma studentId is the whole body |
| Parser.ParseWellFormed | index.js:34-37 | a body `studentId,timestamp` (comma-free parts), optionally followed by `,more fields`, parses to exactly those two parts; the extra fields are dropped |
| Handlers.CheckCreate | index.js:41-49 | 400 "Invalid data format" iff the body is not a non-empty string; 400 "Missing studentId or timestamp" iff it is one but the parsed studentId is empty or the timestamp absent or empty; accepted exactly when neither applies, with the two parsed, non-empty values |
| Handlers.CreateRejectsNoComma | index.js:46-48 | a non-empty body without a comma (e.g. `12345`) is rejected as missing a field |
| Handlers.CreateRejectsEmptyStudentId | index.js:46-48 | a body starting with a comma (e.g. `,ts`) is rejected as missing a field |
| Handlers.CreateRejectsEmptyTimestamp | index.js:46-48 | a body whose first comma is at the end or followed by another comma (e.g. `12345,`) is rejected as missing a field |
| Handlers.CreateAcceptsWellFormed | index.js:46-53 | a body `studentId,timestamp[,...]` with both parts non-empty is accepted with exactly those two values |
| Handlers.CheckUpdate | index.js:101-110 | rejected (400 "Missing studentId or timestamp") iff studentId or timestamp is missing or empty; otherwise the two values are stored as given and classId is the supplied one when non-empty, `CLASS001` otherwise |
| Table.AttendanceTable.constructor | index.js:24-31 | a freshly created table is empty, its invariant holds and the first id to issue is 1 |
| Table.AttendanceTable.Insert | index.js:51-53 | appends exactly one row with the given fields under id `nextId`, which is greater than every id already in the table; `nextId` advances; ids stay increasing and unique |
| Table.WithUpdate | index.js:108-110 | same number of rows; each row whose id matches has studentId, timestamp and classId overwritten, keeping its id; every other row is unchanged |
| Table.UpdateAbsentId | index.js:108-116 | an update whose id matches no row leaves the rows unchanged |
| Table.AttendanceTable.Update | index.js:108-110 | the rows become `WithUpdate` of the old rows; `nextId` and the invariant are kept |
| Table.WithoutIdMembers | index.js:125 | after a delete, a row remains iff it was in the table and its id differs from the deleted id |
| Table.DeleteKeepsIdsIncreasing | index.js:125 | deleting keeps the remaining rows in order: ids stay strictly increasing |
| Table.DeleteAbsentId | index.js:125-130 | a delete whose id matches no row leaves the rows unchanged |
| Table.DeleteExistingId | index.js:125 | in a table with increasing ids, deleting the id at position k removes exactly that row and keeps the others in order |
| Table.AttendanceTable.Delete | index.js:125 | the rows become `WithoutId` of the old rows; `nextId` and the invariant are kept |
| Query.SearchConditions | index.js:81-88 | one condition per truthy query value: studentId equality first, then timestamp LIKE `date + "%"` last |
| Query.BuildSearchQuery | index.js:77-88 | the text is the base query followed by one clause per enabled filter and the parameters are those filters' values, in the same order; placeholders equal parameters; studentId comes first, `date + "%"` last; with no filter the text is exactly the base and there are no parameters |
| Query.PlaceholdersMatchParams | index.js:78-88 | every statement the builder can produce has exactly as many `?` placeholders as parameters |
| Query.ParseRendered | index.js:82-90 | the store reads the rendered clauses and parameters back as exactly the conditions they came from |
| Query.ParseSearchStatement | index.js:78-90 | the whole built search statement is read back as its conditions (and is not the list-all statement) |
| Query.SelectMembers | index.js:90 | a row is returned by a SELECT iff it is in the table and satisfies every condition of its WHERE clause |
| Query.SelectKeepsIdsIncreasing | index.js:90 | a SELECT returns rows in table order: ids stay strictly increasing |
| Query.RunSearchStatement | index.js:78-90 | running the built search statement on the table selects exactly by the conditions it was built from |
| Query.ListAllReturnsTable | index.js:66 | `SELECT * FROM attendance` returns the whole table |
| Query.SelectNoConditions | index.js:78 | with no filter (`WHERE 1=1`) every row is returned, in order |
| Query.SelectConjunction | index.js:81-88 | adding clauses with AND intersects: selecting with `a + b` equals selecting with `a`, then with `b` |
| Query.SearchMatches | index.js:81-88 | a row matches the search iff its studentId equals the studentId filter when that is given and its timestamp is LIKE `date%` when a date is given |
| Query.SearchSelects | index.js:81-90 | the search returns exactly the table's rows whose studentId equals the studentId filter (when given) and whose timestamp is LIKE `date%` (when given) |
| Query.SearchIsIntersection | index.js:81-88 | a search with both filters returns the rows of the studentId search that the date search also keeps |
| Query.LikeAnything | index.js:87 | a lone `%` pattern matches every timestamp |
| Query.LikePrefix | index.js:87 | for a date without `%` or `_`, `timestamp LIKE date%` holds iff the timestamp starts with the date |
| Query.SearchByDatePrefix | index.js:85-87 | with a wildcard-free date, search returns exactly the rows whose timestamp starts with it (and whose studentId matches, when given) |
| Handlers.PostAttendance | index.js:40-62 | a rejected body answers 400 with the check's message and changes nothing; a store failure answers 500 "Failed to save attendance" and changes nothing; otherwise one row with the parsed values and classId `CLASS001` is appended under a fresh id and the response, status 201, echoes studentId and timestamp, not the id |
| Handlers.GetAttendance | index.js:65-73 | status 500 with "Failed to fetch attendance" on a store failure, otherwise status 200 with the whole table |
| Handlers.SearchAttendance | index.js:76-97 | status 500 with "Failed to search attendance" on a store failure; otherwise status 200 with exactly the rows matching every enabled filter, in table order; with no filter, the same rows as list-all |
| Handlers.RunSearch | index.js:78-90 | the statement the search handler builds, run by the store, returns exactly the rows the search conditions select |
| Handlers.PutAttendance | index.js:100-119 | missing or empty studentId or timestamp answers 400 and changes nothing; a store failure answers 500 and changes nothing; otherwise status 200, the rows become `WithUpdate` with the defaulted classId and the response echoes the id, whether or not a row had it |
| Handlers.DeleteAttendance | index.js:122-132 | a store failure answers 500 and changes nothing; otherwise status 200, the rows become `WithoutId` and the response echoes the id, whether or not a row had it |

`Handlers.CreateThenSearch` walks through the example of a create of `12345,2025-03-22 10:00`
on a fresh table followed by a search by studentId, which finds the one row with classId
`CLASS001`.

## Left out

- Express setup, the `express.text`, `cors` and `express.json` middleware, routing and `app.listen` (index.js:1-11, 135-137): HTTP framework plumbing.
- The port and database path taken from environment variables (index.js:6, 14): process configuration.
- Opening the SQLite connection, the asynchronous callback style and console logging (index.js:15-21 and the `console.error` calls): I/O through a library that is not part of this model. A store failure is the input `storeFails`; causes such as running out of AUTOINCREMENT ids are covered only by it.
- SQLite's ASCII case-insensitivity of `LIKE`: the model compares characters exactly, so a date with letters in a different case matches less than SQLite would.
- SQLite type affinity between the string `:id` path parameter and the INTEGER column: ids, including the id echoed in the update and delete responses, are modelled as integers.
- Row order of `SELECT` without `ORDER BY`: the store decides it; the model uses insertion order.
- Concurrent requests and SQLite's write serialisation: the model is sequential.
- JSON serialisation of responses: each `Response` constructor stands for its JSON body, with the fixed message strings of the success bodies implied by the constructor.
- Non-string JSON values in the update body and array or object values of the search query string: these fields are modelled as absent or a string; how SQLite would store a number or boolean is not modelled.
- A PUT whose body is `undefined` or `null`: destructuring it throws and Express answers 500, while the model takes the fields as absent and answers 400. A string body, as `express.text` produces, has none of these properties, so its fields are absent and the 400 answer is the source's own.
- Number values of the create body are integers: `NaN` and fractions are not modelled (they only reach the "Invalid data format" branch anyway).
