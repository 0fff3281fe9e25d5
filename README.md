# Community reports API — a Dafny model

The service keeps community incident reports (title, description, date, location)
in a document collection and offers three operations: a paginated newest-first
listing, creation with validation, and deletion by id. This project models the report
controller (`getReports`, `createReport`, `deleteReport`) and the `Report` schema
(cast to String, `trim`, `required`, `minlength`, `maxlength`, a required date), and
proves what they promise.

Modules, leaves first:

- `Results` (`results.dfy`): `Option` and `Result`.
- `JsText` (`js_text.dfy`): JavaScript strings as UTF-16 code units, so `length`
  counts code units as the engine does. It also holds `String.prototype.trim`, with the
  full ECMAScript set of whitespace and line-terminator code units.
- `JsNumber` (`js_number.dfy`): `parseInt(s, 10)`, which reads the query parameters,
  and `toString` of an integer, which Mongoose uses to cast a numeric field to a string.
- `JsValue` (`js_value.dfy`): the values a JSON body property can hold. It also holds
  the three operations the controller applies to them: truthiness, `.length` (a
  comparison with `undefined` is false), and `typeof === 'string'`.
- `ReportModel` (`report_model.dfy`): the schema as a validity predicate and as
  Mongoose's per-path validation (`Save`), with the invariant every saved document
  keeps (`StoredValid`). It also holds the collection, a class
  `ReportCollection`:
  - `records` are the saved documents in creation order;
  - each report gets a new `nextId`;
  - a strictly increasing `clock` stands in for `createdAt`;
  - the methods are `Create` (`Report.create`) and `DeleteOne` (`report.deleteOne()`);
  - the functions are `FindNewestFirst` (`find().sort({createdAt:-1}).skip().limit()`)
    and `FindById`.
- `ReportController` (`report_controller.dfy`): the five ordered checks of
  `createReport` and a generic "first failing rule" definition they are proved equal
  to. It also holds the page/limit defaulting, the offset, the page count, and the
  three handlers as methods over a `ReportCollection`.

The model follows the code's behaviour, including where it is easy to misread:
- The "required" check is JavaScript truthiness, so `0` and `false` also count as
  missing.
- Only the location is checked to be a string. A numeric title such as `12` passes the
  controller's length check, because its `length` is `undefined`. The schema then casts
  it to `"12"`, which fails the minimum (`NumericTitleSkipsLengthCheck`).
- The controller measures raw lengths and the schema measures trimmed ones. So
  `"  ab  "` passes the controller and fails the schema
  (`PaddedShortTitlePassesControllerOnly`). A title padded beyond 100 code units is
  refused by the controller, even though the schema would accept it.
- The messages are the Portuguese ones in the code.

## Model

| member | source | states |
|---|---|---|
| `JsText.TrimKeepsMiddle` | models/Report.js:7 | `trim` never lengthens a string; it keeps a contiguous middle part with no whitespace at either end and removes only whitespace around it |
| `JsText.TrimUnique` | models/Report.js:7 | any split of a string into whitespace, a middle without whitespace at its ends, and whitespace has that middle as its trim |
| `JsText.TrimIdempotent` | models/Report.js:14 | trimming twice gives the same as trimming once |
| `JsText.TrimmedIsFixed` | models/Report.js:24 | a string without surrounding whitespace is stored unchanged |
| `JsText.TrimStartAt` | controllers/reportController.js:6 | `parseInt` starts reading at the first code unit that is not whitespace |
| `JsNumber.ParseIntReadsInteger` | controllers/reportController.js:6 | `parseInt` reads back any integer written in decimal, and stops at the first code unit that is not a digit |
| `JsNumber.ParseIntReadsDigits` | controllers/reportController.js:6-7 | after leading whitespace and an optional sign, `parseInt` reads the longest digit run, leading zeros included, and negates it after a minus; with `ParseIntNaN` this covers every input |
| `JsNumber.ParseIntNaN` | controllers/reportController.js:7 | with no digit right after the leading whitespace and an optional sign, `parseInt` gives NaN; this includes a sign followed by whitespace or by another sign |
| `ReportModel.ValidateText` | models/Report.js:4-10 | a String path passes exactly when it casts to text whose trim is non-empty and within the min/max bounds; the stored value is that trim; an error names its own path |
| `ReportModel.Save` | models/Report.js:3-29 | every document the schema accepts is trimmed, with title 3..100 code units, description at least 10 and location at least 3 |
| `ReportModel.ChecksMatchRules` | models/Report.js:4-26 | each path's validators (required, minlength, maxlength, date required) pass exactly when its declared rule holds on the cast, trimmed value |
| `ReportModel.SaveAcceptsExactlyValid` | models/Report.js:3-29 | `Report.create` accepts a candidate if and only if all four path rules hold; the stored texts are the trims of the cast inputs and the date is the one given |
| `ReportModel.SaveReportsFailingPaths` | models/Report.js:3-29 | a rejected save reports at least one error, names every path that breaks its rule, and names no path that keeps it |
| `ReportModel.ResaveIsIdentity` | models/Report.js:3-26 | saving the fields of a saved report again yields the same document |
| `ReportModel.IndexOf` | controllers/reportController.js:81 | lookup by id finds a position holding that id, and finds nothing exactly when no record has it |
| `ReportModel.NewestFirstSorts` | controllers/reportController.js:12 | listing records kept in creation order backwards sorts them by `createdAt`, newest first, and keeps the same records |
| `ReportModel.NewestFirstIsUnique` | controllers/reportController.js:12 | two newest-first arrangements of the same records are equal, so the sort by `createdAt` has exactly one result |
| `ReportModel.Window` | controllers/reportController.js:13-14 | for a limit `l` of at least 1, the only kind the controller passes, `skip(s).limit(l)` returns at most `l` records: those at positions `s`, `s+1`, … of the sorted sequence |
| `ReportModel.ReportCollection.FindById` | controllers/reportController.js:81 | `findById` returns a report exactly when the collection holds one with that id, and then it is that report |
| `ReportModel.ReportCollection.Create` | controllers/reportController.js:71 | an invalid candidate changes nothing; a valid one is appended as exactly one record, with an id not in use before and the current creation stamp; the collection invariant (creation order, every document schema-valid) is kept; the id counter and the clock each advance by one |
| `ReportModel.ReportCollection.DeleteOne` | controllers/reportController.js:87 | removes the record holding the id and nothing else, keeping the collection invariant |
| `ReportModel.RemoveDropsOnlyThatId` | controllers/reportController.js:87 | after the removal, the remaining records are the old ones minus that one record, and the id is no longer present |
| `ReportController.FirstFailing` | controllers/reportController.js:38-62 | yields no rule exactly when all rules hold; otherwise yields a failing rule before which every rule holds |
| `ReportController.ValidationIsFirstFailingRule` | controllers/reportController.js:38-62 | the controller's checks fail exactly when some rule of required / title / description / location / date fails, and then with the first such rule; on success the date is the parsed one |
| `ReportController.TitleCheckReadsRawLength` | controllers/reportController.js:42-44 | a string title passes exactly when its raw length is 3..100; a numeric, `true` or object title is never rejected by that check |
| `ReportController.TitleBoundsCompared` | controllers/reportController.js:42-44 | a title the schema accepts always meets the controller's minimum, and one that meets the controller's maximum always meets the schema's |
| `ReportController.PaddedShortTitlePassesControllerOnly` | controllers/reportController.js:42 | `"  ab  "` passes the controller's title check and fails the schema's title rule |
| `ReportController.NumericTitleSkipsLengthCheck` | controllers/reportController.js:42 | the title `12` is truthy and passes the controller's length check, but the schema rejects the cast text `"12"` |
| `ReportController.PageParam` | controllers/reportController.js:6 | the effective page is never 0 |
| `ReportController.LimitParam` | controllers/reportController.js:7 | the effective limit is never 0 |
| `ReportController.QueryDefaults` | controllers/reportController.js:6-7 | page and limit are the integer written in the query; 0 or a missing parameter gives 1 and 10 |
| `ReportController.QueryReadsDigits` | controllers/reportController.js:6-7 | `"05"`, `"+5"` and `" 5"` give page 5: page and limit are the digits `parseInt` reads (signed), with 0 falling back to 1 and 10 |
| `ReportController.NonNumericQueryFallsBack` | controllers/reportController.js:6-7 | a query value with no digits gives page 1 and limit 10 |
| `ReportController.SpacedSignFallsBack` | controllers/reportController.js:6-7 | the query value `"- 5"` gives page 1 and limit 10, because no digit follows the sign directly |
| `ReportController.StartIndex` | controllers/reportController.js:8 | the offset is never negative, and it is 0 exactly on page 1 |
| `ReportController.PagesAreAdjacent` | controllers/reportController.js:8 | each page starts exactly `limit` records after the previous one |
| `ReportController.PageCount` | controllers/reportController.js:24 | `pages` is the least number of pages of `limit` records that holds `total` records, so an empty collection has 0 pages |
| `ReportController.EachRecordOnItsPage` | controllers/reportController.js:8-24 | every record of the sorted sequence appears on page `k / limit + 1`, at position `k % limit` of its window, and that page is within the page count; no other page's offset range covers it, so the page is unique |
| `ReportController.ListingIsNewestFirstWindow` | controllers/reportController.js:11-14 | the listed window is newest first, holds at most `limit` records, and its `i`-th entry is the record created `skip + i` places before the newest |
| `ReportController.SmallCollectionFitsOnFirstPage` | controllers/reportController.js:10-24 | with at most `limit` records, page 1 lists them all, newest first, and `pages` is 1 (0 when empty) |
| `ReportController.TrimmedBodyIsSavedAsSent` | controllers/reportController.js:64-71 | if the checks pass and the texts have no surrounding whitespace, the schema accepts the body and stores exactly the submitted texts |
| `ReportController.GetReports` | controllers/reportController.js:5-28 | answers 200 with the window at offset `(page-1)*limit` of the newest-first records, and `{page, limit, total, pages}`, where total counts all records; the collection is not modified; `success` is true |
| `ReportController.CreateReport` | controllers/reportController.js:30-78 | a failed check answers 400 with that rule's message and changes nothing; a schema rejection changes nothing; otherwise it answers 201 with the new report, appended as the only change to the records, and the id counter and clock advance by one; `success` is true exactly for a status below 400 |
| `ReportController.DeleteReport` | controllers/reportController.js:80-93 | an unknown id answers 404 "Relato não encontrado" and changes nothing; a known id answers 200 and removes that record only, keeping the id counter and clock; the deleted id stays below the counter, from which `Create` hands out the next id, so it is never handed out again; afterwards no record has the id; `success` is true exactly for a status below 400 |

## Left out

- Routing, the Express app, CORS, JSON body parsing, the `/api` banner and the server
  start-up (server.js, routes/) are framework plumbing. They are not part of this model.
- The error middleware and `ErrorResponse` are not part of the source shown. When the
  schema rejects a document, the model answers status 500 carrying the path errors.
  The exact status and message that middleware produces are not modelled.
- Ids are naturals handed out by the collection. ObjectId casting, including the 500
  for a malformed id on delete, is not modelled.
- `new Date(value)` and its NaN test are a parameter (`DateParser`). JavaScript date
  parsing is not modelled.
- `ReportController.GetReports`: requires the effective page and limit to be at least
  1. The code passes negative values to the database unchecked, and what the database
  then does is not modelled.
- `ReportModel.Window`: a limit of 0 returns no records, whereas MongoDB's `.limit(0)`
  means "no limit". The controller never passes 0 (`LimitParam` is never 0), so that
  reading is not modelled.
- `parseInt` results are unbounded integers. Rounding to the nearest double above
  2^53 is not modelled.
- Query parameters are either absent or one string. Repeated parameters (arrays) and
  bracketed ones (objects) are not modelled.
- Body numbers are safe integers (magnitude below 2^53). Fractional numbers and
  `toString` in exponent notation are not modelled.
- Arrays in a body are known only by their length. Objects are opaque, so an object
  with its own `length` or `_id` property is not modelled.
- `createdAt` is a strictly increasing counter. Two reports stamped in the same
  millisecond, and `updatedAt`, are not modelled.
- The two schema indexes (models/Report.js:31-32) only affect query speed. They are
  left out.
- Requests are handled one at a time. Concurrent requests and database failures are
  not modelled.
- The JSON serialisation of responses is not modelled. A response is a status and a
  payload datatype, and `Response.SuccessFlag` gives the `success` field.
