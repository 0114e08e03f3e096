# Diesel record service — a Dafny model

This project models the record service of a small lorry-fuelling log. The
service is an Express server over one SQLite table, `diesel_records`. It lets
a client:

- create a record (lorry number, record date, price, litres), after a
  validation that collects every error;
- list the records, optionally limited to an inclusive date range, newest
  date first and highest id first on the same date;
- export the same list as CSV under a fixed six-column header;
- delete a record by id.

It also models `buildQuery` of the web client. That function turns the
client's filter object into the query string it appends to the list and
export URLs.

The table is the class `Store.RecordTable`. It holds the rows in insertion
order and the AUTOINCREMENT counter `nextId`, plus a ghost set of every id
ever handed out. `Create` and `Delete` change it in place and keep the table
invariant:

- ids are positive and below the counter;
- every row's id was handed out;
- ids increase along the table;
- every row is one that validation let through.

`List` and `ExportCsv` only read the table. Both are specified by the pure
query `Query.Select`: the rows in the date range, ordered. A storage failure
is a boolean input of each operation that can fail. The clock value for
`created_at` is a parameter.

JavaScript values are modelled in `JsValues`:

- `Num` is the result of `Number(...)`: NaN, ±Infinity or an exact real.
- `Trim` is `String.prototype.trim` over the ECMAScript white-space and
  line-terminator characters.
- Dates are the subset type `Dates.CalendarDate`: a year up to 9999, a month
  from 1 to 12 and a day within that month (leap years included). They are
  compared chronologically, which is the order SQLite's `date()` gives on
  such `YYYY-MM-DD` strings.

Modules, one per file:

- `JsValues`: numbers, truthiness, trim.
- `Dates`: calendar dates.
- `Records`: rows, bodies, validation, the stored row.
- `Query`: date filter, WHERE clause, ordering, select.
- `Csv`: header and records of the export.
- `Store`: the table class and its handlers.
- `ClientQuery`: `buildQuery` and reading its result back.

Where the service's documentation and its code differ, the model follows the
code.

- The documentation says a create either fully succeeds or creates nothing.
  The code returns 500 when reading the inserted row back fails, but the row
  stays inserted. `Store.RecordTable.Create` models the code.
- The documentation says delete rejects an id that is not a positive integer.
  The code only asks `Number.isInteger`. So `0`, negative integers and ids
  such as `1e2` pass the check, reach the delete, and get 404 when no row
  matches. `Store.RecordTable.Delete` models the code.

## Model

| member | source | states |
|---|---|---|
| `JsValues.RejectedIffNotPositive` | server-sqlite/index.js:29-30 | the price and litres test (at most zero or NaN) rejects exactly the numbers that are not greater than zero (NaN included) |
| `JsValues.LeadingSpaces` | server-sqlite/index.js:27 | the count of leading white-space characters: all of them are white space, and the next character (if any) is not |
| `JsValues.TrailingSpaces` | server-sqlite/index.js:27 | the count of trailing white-space characters: all of them are white space, and the character before them (if any) is not |
| `JsValues.Trim` | server-sqlite/index.js:40 | trimming never lengthens, and its result is empty or starts and ends with a non-white-space character |
| `JsValues.TrimKeepsCore` | server-sqlite/index.js:40 | trim returns exactly the part between leading and trailing white space |
| `JsValues.TrimBlank` | server-sqlite/index.js:27 | trim gives the empty string exactly when the text is blank; otherwise the trimmed text is non-blank |
| `JsValues.TrimIdempotent` | server-sqlite/index.js:40 | trimming a trimmed lorry number changes nothing |
| `JsValues.TrimUnspaced` | server-sqlite/index.js:40 | a text is stored unchanged by trim exactly when it has no white space at either end |
| `Dates.OutOfCalendar` | server-sqlite/index.js:55-56 | an overflowing day (2024-02-30), a thirteenth month and 29 February of a common year are not calendar dates; 29 February of a leap year is |
| `Records.MessageInjective` | server-sqlite/index.js:27-30 | the four error messages are pairwise distinct |
| `Records.NoCheckFailsIffAcceptable` | server-sqlite/index.js:27-30 | no check fails exactly when the lorry number is non-blank after trim, the date is present, and price and litres are positive numbers |
| `Records.Messages` | server-sqlite/index.js:27-30 | one message per failing field, in the same order |
| `Records.FailingFieldsByCheck` | server-sqlite/index.js:26-31 | the failing fields are the four checks' reports, concatenated in source order |
| `Records.Validate` | server-sqlite/index.js:25-32 | the step-by-step accumulation yields exactly the failing fields, and is empty exactly when the body is acceptable |
| `Records.FailedAmongMembers` | server-sqlite/index.js:26-31 | a field is reported exactly when it is checked and its check fails |
| `Records.InCheckOrderAppend` | server-sqlite/index.js:26-31 | pushing a later field after earlier ones keeps the check order |
| `Records.FailedAmongInOrder` | server-sqlite/index.js:26-31 | the reported fields keep the check order and are no more than the checked ones |
| `Records.FailingFieldsEmptyIff` | server-sqlite/index.js:31 | the list of failing fields is empty exactly when no check fails |
| `Records.ErrorListReportsEveryFailure` | server-sqlite/index.js:26-31 | validation is not fail-fast: a field's message is in the error list exactly when its check fails |
| `Records.ErrorListOrdered` | server-sqlite/index.js:26-31 | every error is one of the four messages; they come in the fixed order lorry_number, record_date, price, liters, at most one per field, so at most four |
| `Records.MessagesInOrder` | server-sqlite/index.js:26-31 | the messages of fields listed in check order are each one of the four messages and come in that same order |
| `Records.NewRow` | server-sqlite/index.js:37-40 | the inserted row holds the trimmed lorry number (non-blank, without edge white space), the date, price and litres as submitted, the given id and creation time |
| `Query.BuildFilter` | server-sqlite/index.js:53-57 | one clause and one parameter per supplied bound, start before end; a date satisfies all clauses exactly when it lies in the inclusive range; no WHERE text exactly when no bound is given |
| `Query.MatchingCount` | server-sqlite/index.js:55-56 | filtering keeps each in-range row as often as it occurs and drops every other row |
| `Query.MatchingSubset` | server-sqlite/index.js:55-56 | filtering returns only rows of the table |
| `Query.MatchingUnique` | server-sqlite/index.js:55-56 | filtering keeps ids distinct |
| `Query.WhereIsMatching` | server-sqlite/index.js:55-60 | evaluating the built clauses selects exactly the rows whose date is in the requested range |
| `Query.ListedBeforeTotal` | server-sqlite/index.js:61 | for rows with different ids, exactly one of the two is listed first |
| `Query.InsertMultiset` | server-sqlite/index.js:61 | inserting into the ordered list adds exactly that row |
| `Query.InsertMembers` | server-sqlite/index.js:61 | inserting adds no other row |
| `Query.InsertOrdered` | server-sqlite/index.js:61 | inserting keeps date-descending, id-descending order |
| `Query.InsertUnique` | server-sqlite/index.js:61 | inserting a row with a new id keeps ids distinct |
| `Query.OrderMultiset` | server-sqlite/index.js:61 | ordering is a permutation |
| `Query.OrderOrdered` | server-sqlite/index.js:61 | ordering gives date descending, then id descending |
| `Query.OrderUnique` | server-sqlite/index.js:61 | ordering keeps ids distinct |
| `Query.OrderedHeads` | server-sqlite/index.js:61 | two ordered arrangements of the same rows with distinct ids start with the same row |
| `Query.OrderedUnique` | server-sqlite/index.js:61 | with distinct ids the order is fully determined: two ordered permutations of the same rows are equal |
| `Query.Select` | server-sqlite/index.js:55-64 | the list is ordered and holds exactly the in-range rows, each as often as in the table; without bounds it is a permutation of the whole table |
| `Query.SelectDetermined` | server-sqlite/index.js:58-61 | any ordered arrangement of the in-range rows of a table with distinct ids is the list |
| `Csv.Names` | server-sqlite/index.js:83 | the header names are the columns' names, position by position |
| `Csv.HeaderNames` | server-sqlite/index.js:83 | the header is exactly id, lorry_number, record_date, price, liters, created_at |
| `Csv.Record` | server-sqlite/index.js:83-84 | every record has one cell per header column |
| `Csv.ParseRecord` | server-sqlite/index.js:83-84 | a record that reads back as a row has the header's width |
| `Csv.RecordColumns` | server-sqlite/index.js:83-84 | each record holds the row's field of each column at that column's position, and reads back as the row |
| `Csv.Rows` | server-sqlite/index.js:84 | a document that reads back has one row per record |
| `Csv.Stringify` | server-sqlite/index.js:83-86 | the export carries the fixed header and one record per row that reads back as exactly the given rows, in order |
| `Store.IncreasingUnique` | server-sqlite/index.js:16 | ids that increase along the table are distinct |
| `Store.RemoveIdMembers` | server-sqlite/index.js:93 | a row survives the delete exactly when it was in the table and has another id |
| `Store.RemoveAbsentId` | server-sqlite/index.js:93-95 | deleting an id no row carries changes nothing |
| `Store.RemoveIdLength` | server-sqlite/index.js:95 | the delete removes at least one row exactly when some row carries the id |
| `Store.RemoveIdExact` | server-sqlite/index.js:93 | with distinct ids the delete removes exactly the row with that id and keeps every other row in place |
| `Store.RemoveIdIncreasing` | server-sqlite/index.js:93 | deleting keeps ids increasing |
| `Store.AppendKeepsInvariant` | server-sqlite/index.js:16 | the AUTOINCREMENT id exceeds every id handed out before and every id in the table, and appending the new row keeps the table invariant |
| `Store.RemoveKeepsInvariant` | server-sqlite/index.js:93 | deleting by id keeps the table invariant, so ids of deleted rows are never handed out again |
| `Store.RecordTable.constructor` | server-sqlite/index.js:15-22 | a freshly created table is empty and its counter starts at 1 |
| `Store.RecordTable.Create` | server-sqlite/index.js:34-49 | an invalid body gets 400 with every validation message and no change; a failed insert gets 500 and no change; otherwise exactly one row, the trimmed submission under a never-used id, is appended, and the answer is that row (201) or the fetch failure (500, row kept) |
| `Store.RecordTable.Delete` | server-sqlite/index.js:90-98 | a non-integer id gets 400 and no change; a failed delete gets 500 and no change; otherwise the rows with that id are removed, with 404 when there were none and `{success: true, id}` otherwise; the counter never moves back |
| `Store.RecordTable.List` | server-sqlite/index.js:51-66 | a failed query gets 500; otherwise the answer is the selected rows in range, ordered |
| `Store.RecordTable.ExportCsv` | server-sqlite/index.js:68-88 | a failed query gets 500; otherwise the document has the fixed header and its records read back as exactly the list's rows in the list's order |
| `Store.CreateListDelete` | server-sqlite/index.js:34-98 | on a fresh table, creating an acceptable record gives 201 with id 1; listing shows just that record; deleting id 1 succeeds; listing again shows nothing; deleting id 1 a second time gives 404 |
| `Store.RemoveOnlyRow` | server-sqlite/index.js:93 | deleting the id of the only row empties the table |
| `Store.SelectAllSingle` | server-sqlite/index.js:57-64 | listing a one-row table without bounds gives that row |
| `Store.SelectAllEmpty` | server-sqlite/index.js:57-64 | listing an empty table gives nothing |
| `ClientQuery.KeptMembers` | client/src/App.jsx:7 | an entry is appended exactly when it is an entry of the filters with a truthy (non-empty) value |
| `ClientQuery.KeptEmpty` | client/src/App.jsx:7 | nothing is appended exactly when every value is empty |
| `ClientQuery.KeptPositionsIncrease` | client/src/App.jsx:7 | the positions of the appended entries are positions of the filters, strictly increasing |
| `ClientQuery.KeptInOrder` | client/src/App.jsx:7 | the appended entries are the entries at strictly increasing positions, in the filters' order |
| `ClientQuery.Pairs` | client/src/App.jsx:8 | one `key=value` pair per appended entry, in order |
| `ClientQuery.Serialize` | client/src/App.jsx:8 | the serialised parameters are empty exactly when nothing was appended |
| `ClientQuery.JoinEmpty` | client/src/App.jsx:8 | joining non-empty pairs gives the empty text only for no pairs |
| `ClientQuery.BuildQuery` | client/src/App.jsx:5-9 | the loop appends the truthy entries; the result is empty exactly when every value is empty, otherwise it is `?` followed by the serialised kept pairs; for an encoding that writes no `&` or `=`, the result reads back as exactly the kept entries, encoded and in order |
| `ClientQuery.FirstIndex` | client/src/App.jsx:8 | the first separator's position: it holds the separator and nothing before it does |
| `ClientQuery.Split` | client/src/App.jsx:8 | cutting text at a separator gives at least one part |
| `ClientQuery.FirstIndexAfter` | client/src/App.jsx:8 | after a separator-free part, the first separator is the one that follows it |
| `ClientQuery.SplitJoin` | client/src/App.jsx:8 | joining separator-free parts with `&` (or `=`) and cutting the result there gives the parts back |
| `ClientQuery.Encoded` | client/src/App.jsx:8 | encoding keeps the number of entries |
| `ClientQuery.ParsePairsOfPairs` | client/src/App.jsx:8 | each `key=value` pair reads back as its encoded key and value |
| `ClientQuery.PairsHaveNoAmpersand` | client/src/App.jsx:8 | no pair holds `&` when the encoding escapes it |
| `ClientQuery.BuildQueryRoundTrip` | client/src/App.jsx:5-9 | the query string carries exactly the kept entries, in order: reading it back gives each kept key and value as encoded, and nothing when no value is truthy |

## Left out

- Express routing, response headers, CORS and `app.listen` are HTTP plumbing. A handler's outcome is the `Response` datatype, and `Status()` gives its code.
- The sqlite3 connection, `db.serialize` and the asynchronous callbacks are foreign I/O. Each failure is a boolean input; a failed statement changes nothing.
- Concurrency: requests are modelled one at a time.
- `created_at` comes from `datetime('now')`, a clock. It is the `now` parameter of `Create`.
- The quoting and escaping of `csv-stringify` is a foreign library. A record is its sequence of typed cells, and only the columns, their order and the row order are modelled.
- The code checks only that `record_date` is present, not its format, and the date filters are not checked at all. The model admits only calendar dates (`Dates.CalendarDate`), for stored dates and for filter bounds. A text that is not one is not modelled: SQLite's `date()` normalises an overflowing day (2024-02-30 compares as 2024-03-01) and gives NULL for a month out of range (such a row fails every bound and sorts last), and neither behaviour is captured.
- `Number()` coercion is abstracted to the resulting `Num`. Its quirks (booleans, white space, hexadecimal, the empty string) and floating-point rounding are not modelled; a finite number is an exact real.
- `+Infinity` passes the price and litres checks, as in the code. How SQLite then stores it is not modelled.
- The stored price and litres are the numbers validation saw. SQLite's REAL affinity, which converts numeric text, is not modelled separately.
- A `lorry_number` that is falsy but not a string (`0`, `false`) counts as missing, as in the code. A truthy non-string value is modelled by its string form.
- Records.Validate: returns the failing fields, in order, rather than the message strings. The messages are `Records.Messages` of that list, which `Store.RecordTable.Create` returns. Each field maps to exactly one fixed message (`Records.MessageInjective`).
- `URLSearchParams` percent-encoding is a library. It is the parameter `encode`; the round trip assumes only that no encoded text contains `&` or `=`.
- Filter values in `buildQuery` are strings. Other truthy values and their string conversion are not modelled.
- Everything in the client other than `buildQuery` (React state, effects, fetch, totals, formatting) is UI, I/O or floating point.
