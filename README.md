# Exercise tracker — a verified model of its request handlers

The exercise tracker is a small Express service backed by SQLite. It has two tables:

- `users`: an auto-increment id and a UNIQUE username.
- `exercises`: an auto-increment id, the owning user, a description, a duration and a `YYYY-MM-DD` date.

Four routes read and write the tables:

- `POST /api/users` creates a user.
- `GET /api/users` lists the users.
- `POST /api/users/:_id/exercises` adds an exercise.
- `GET /api/users/:_id/logs` returns a user's exercises, filtered by optional `from`/`to` dates, sorted by date and cut to an optional `limit`, together with a `count`.

Two helpers check dates: `dateFormatValidation`, a regular expression test, and `dateValidation`, a round trip through a JavaScript `Date`.

The model is split into these modules:

- `Wrappers`: `Option` and `Result`.
- `JsValues`: the JavaScript behaviour the handlers rely on, namely `String.prototype.trim`, truthiness of request fields, `parseInt` with radix 10, and the outcome of `Number(x)`.
- `Dates`: both date checks. The calendar check is stated as a `Date` parse followed by `toISOString().split('T')[0]`.
- `LogQuery`: the log-query builder, as a method that grows both SQL statements and the parameter list clause by clause. Beside it are the functions describing the statements it produces.
- `Database`: the rows, and the part of SQLite the handlers use. That part covers recognising the statements, binding arguments to `?` placeholders by position (a missing argument is NULL), `WHERE`, `COUNT(*)`, `ORDER BY date` on TEXT and `LIMIT`. It also defines the listing a log request asks for, and proves that the built statements compute it.
- `Api`: the `Store` class. It holds both tables and their auto-increment counters as fields. It has one method per route, and its class invariant is what the handlers keep true of the tables.
- `Scenarios`: short request sequences against a fresh store.

The code and the service's documented behaviour disagree about `count` in the log response:

- `count` is meant to be the number of the user's exercises within the bounds, ignoring the limit, computed by its own count statement without the `LIMIT` clause. A user with one exercise who asks for the log without a limit should see `count: 1`.
- The code hands the count statement every parameter but the last (`index.js:202`). Without a limit, the last parameter is a placeholder argument the count statement needs.
- `Store.GetLog` follows the code. The discrepancy and the corrected count are under "Findings".

## Model

| member | source | states |
|---|---|---|
| JsValues.TrimEmptyIff | index.js:44 | `trim()` of a name is empty exactly when every character of it is JavaScript white space |
| JsValues.TrimIsSlice | index.js:44 | `trim()` returns a contiguous slice of its input; everything cut off before and after it is white space |
| JsValues.TrimIsTrimmed | index.js:49 | the trimmed name has no white space at either end |
| JsValues.TrimmedIff | index.js:49 | `trim()` leaves a string unchanged exactly when the string has no white space at either end |
| JsValues.TrimIdempotent | index.js:49 | trimming an already trimmed name changes nothing |
| JsValues.ParseIntDecimal | index.js:91 | `parseInt` reads back the decimal rendering of every integer, whatever non-digit text follows it |
| Dates.FullMatchIff | index.js:258-259 | an anchored regular expression without repetition matches exactly the strings of its length whose every character fits its class at that position |
| Dates.FormatValidationIff | index.js:257-264 | `dateFormatValidation` accepts exactly the empty string and the strings of the shape `dddd-dd-dd` |
| Dates.ParseDate | index.js:248-249 | a `Date` parsed from a string is either invalid or a real day of a year 0000–9999; day overflow up to 31 rolls into the next month |
| Dates.IsoDate | index.js:249 | the ISO date part is a `dddd-dd-dd` string whose year, month and day are the date's own |
| Dates.DaysInMonth | index.js:247-255 | every month has 28 to 31 days |
| Dates.DaysInMonthFacts | index.js:247-255 | the seven long months are the 31-day months; February has 29 days exactly in leap years and 28 otherwise |
| Dates.SameFieldsSameString | index.js:249 | two `dddd-dd-dd` strings with equal year, month and day are equal, so the ISO rendering round-trips |
| Dates.DateValidationIff | index.js:247-255 | on `dddd-dd-dd` strings, `dateValidation` holds exactly for real calendar days (month 01–12, day within the month's length) |
| Dates.BothChecksIff | index.js:108-113 | a non-empty string passes both date checks exactly when it is a real calendar day written `YYYY-MM-DD` |
| Dates.February30Rejected | index.js:247-264 | `2021-02-30` passes the format check and fails the calendar check |
| Dates.UnpaddedDateRejected | index.js:257-264 | `2021-2-5` fails the format check |
| Dates.LeapDayIn2020 | index.js:247-255 | `2020-02-29` passes the calendar check |
| Dates.NoLeapDayIn1900 | index.js:247-255 | `1900-02-29` fails the calendar check (1900 is divisible by 100 but not by 400) |
| LogQuery.PlaceholdersCountSql | index.js:166-182 | the count statement has one placeholder for the user and one per date bound given |
| LogQuery.PlaceholdersLogSql | index.js:167-195 | the listing statement has those placeholders, plus one for `LIMIT` when a limit is given |
| LogQuery.AddBound | index.js:170-188 | one optional bound: succeeds exactly when the bound is absent or passes both date checks; when it is given and valid, its clause goes onto both statements and its value onto the parameters |
| LogQuery.BuildLogQuery | index.js:166-199 | errors come in the order from, to, limit, each exactly when its check fails. On success the statements are the base statements plus the given bounds, `from` before `to`, then `ORDER BY date` and `LIMIT ?` if a limit is given. The parameters are user id, from, to, limit, in that order. The listing's placeholders equal the parameter count; the count's placeholders are one fewer when there is a limit |
| LogQuery.AssembledQuery | index.js:166-199 | the statements as concatenated clause by clause are the ones the specification functions describe |
| LogQuery.CountArgs | index.js:202 | `params.slice(0, params.length - 1)` is every parameter but the last |
| LogQuery.CountArityIffLimit | index.js:202 | the count statement gets as many arguments as it has placeholders if and only if a limit is given. Without a limit it is one short; with one, it gets the user id and the bounds |
| LogQuery.IntendedCountArgs | index.js:202 | the corrected argument list drops the last parameter only when it is the limit |
| LogQuery.IntendedCountArity | index.js:202 | with the corrected list the count statement gets exactly the user id and the bounds, as many as its placeholders, limit or not |
| Database.TextLeTotal | index.js:191 | SQLite's TEXT order is total |
| Database.TextLeTrans | index.js:191 | SQLite's TEXT order is transitive |
| Database.TextLeAntisym | index.js:191 | SQLite's TEXT order is antisymmetric |
| Database.UserWithId | index.js:116 | the user lookup by id finds a row exactly when the table has a user with that id, and what it finds has that id |
| Database.UserNamed | index.js:49 | the lookup by name finds a row exactly when some user has that name |
| Database.RecognizeCountSql | index.js:166-182 | every count statement the builder can produce is read back as a count with its date bounds |
| Database.RecognizeLogSql | index.js:167-195 | every listing statement the builder can produce is read back as a listing with its date bounds and its limit flag |
| Database.Select | index.js:171-181 | the `WHERE` clause keeps only table rows that satisfy it, and every such row |
| Database.SelectCounts | index.js:202-207 | the `WHERE` clause keeps each satisfying row exactly as often as the table holds it, and no other row, which is what `COUNT(*)` counts |
| Database.InsertByDatePerm | index.js:191 | inserting a row into a list adds exactly that row |
| Database.InsertByDateSorted | index.js:191 | inserting into a date-sorted list keeps it sorted |
| Database.SortKeepsTies | index.js:191 | two rows of the same date come out of the sort in table order |
| Database.SortByDateFacts | index.js:191 | `ORDER BY date` yields the rows in date order, as a permutation of its input |
| Database.Truncate | index.js:193-196 | `LIMIT n` keeps a prefix. A negative or too large limit keeps everything; otherwise exactly n rows remain |
| Database.Filtered | index.js:170-188 | the requested rows are exactly the table rows of the user whose dates lie within the given bounds, inclusive |
| Database.FilteredCounts | index.js:170-188 | the requested rows hold each of those table rows exactly as often as the table does, and no other row |
| Database.SelectFullyBound | index.js:166-188 | with every placeholder bound, the `WHERE` clause selects exactly the requested rows |
| Database.SelectUnderBound | index.js:202 | with a placeholder left NULL, the `WHERE` clause selects nothing |
| Database.SelectExtraArgs | index.js:210 | the `LIMIT` argument after the `WHERE` arguments does not change which rows are selected |
| Database.ListRowsAsBuilt | index.js:210 | the recognised listing, run on the builder's parameters, yields the requested listing |
| Database.ListingAsBuilt | index.js:210 | the listing statement the builder produces, run on the builder's parameters, yields the filtered rows sorted by date and cut to the limit |
| Database.CountAsWritten | index.js:202-207 | the count statement run as the code runs it reports the number of filtered rows when a limit is given, and 0 when none is given |
| Database.CountAsIntended | index.js:202-207 | with the corrected arguments, the count statement reports the number of filtered rows, limit or not |
| Database.ListingNoLonger | index.js:193-196 | the listing never holds more rows than the filter selects |
| Database.BuiltQueryResults | index.js:202-218 | the statements the builder returns, run as the handler runs them, give the count as written and the requested listing |
| Database.ListingFacts | index.js:191-218 | the listing is sorted by date and holds only the user's exercises within the bounds. It is never longer than the filtered rows and is exactly as long as the limit when the limit is between 0 and that number. Without a limit it is a permutation of the filtered rows |
| Database.CountMissesLoneExercise | index.js:202-207 | for a user with one exercise and no bounds or limit, the listing holds the exercise, but the count as written is 0 while the intended count is 1 |
| Api.PositiveDuration | index.js:102-105 | the four-way test (falsy field, NaN, at most zero, not an integer), given that a falsy field coerces to NaN or 0, accepts exactly the positive integers, and then yields that integer |
| Api.FindUser | index.js:153-163 | a user is found only under the id `parseInt` reads from the route parameter, and always when the table has that id |
| Api.NamesAppend | index.js:48-58 | storing a trimmed, non-empty, unused name keeps the names trimmed, non-empty and pairwise distinct (the UNIQUE column) |
| Api.InsertUserKeepsUsers | index.js:58 | storing the next user keeps ids positive, strictly increasing and within the counter |
| Api.RowsOkMoreUsers | index.js:58 | adding a user keeps every exercise owned by an existing user |
| Api.InsertUserKeepsTables | index.js:58 | storing the next user keeps both tables as the handlers keep them |
| Api.RowsOkRaise | index.js:129-146 | a larger exercise counter bounds the stored ids just as well |
| Api.RowsOkIdsBelow | index.js:129-146 | every stored exercise id is positive and at most the counter, so the next id is fresh |
| Api.RowsOkAppend | index.js:129-131 | storing an exercise of an existing user under the next id, with a description, a positive duration and a real date, keeps every exercise that way and every id within the counter |
| Api.Store.constructor | index.js:17-31 | a fresh database has both tables empty and satisfies the invariant |
| Api.Store.CreateUser | index.js:41-72 | a missing or blank name is a 400 with the "required" message; a trimmed name already taken is a 400 "already exists". Otherwise the user is created, and only then does anything change. The trimmed name is stored under the next id and the response echoes the name as sent |
| Api.Store.ListUsers | index.js:75-87 | a 404 exactly when the table is empty, otherwise every user in table order, with increasing ids and trimmed, non-empty, distinct names |
| Api.Store.AddExercise | index.js:90-149 | the checks run in the order description (400), duration (400), date format (400), calendar date (400 with an empty message), user (404). It succeeds exactly when all pass, and changes nothing otherwise. The stored and returned row has the next id (larger than every stored id), the parsed user id, the description, the coerced duration and the given date or else today's |
| Api.Store.InsertExercise | index.js:129-146 | the exercise is appended under the next id, larger than every stored id; the users are unchanged and the invariant is kept |
| Api.Store.GetLog | index.js:152-234 | the checks run in the order user (404), from, to, limit (400 each). It succeeds exactly when all pass. The log is the user's exercises within the given bounds, sorted by date and cut to the limit. The count is the number of filtered rows when a limit is given and 0 otherwise, so it is at least the log's length when a limit is given |
| Scenarios.BlankNameRefused | index.js:43-46 | a name made only of white space is refused as required |
| Scenarios.SameTrimmedNameTwice | index.js:48-56 | two names with the same trimmed form: the first creates user 1 and echoes its untrimmed name, the second is refused as taken |
| Scenarios.ListAfterOneUser | index.js:75-87 | a fresh store lists no users (404); after one creation it lists that single user with the trimmed name |

## Left out

- The Express set-up is not modelled: CORS, static files, the `/` page, the catch-all 404 route, `listen`, `dotenv` and the debug logging. None of it affects a handler's result.
- The database driver's callbacks are not modelled. Each handler runs its statements one after the other, in the order the callbacks nest; concurrency between requests is out.
- Storage failures (the 500 "Database error", "Error creating user" and "Error adding exercise" responses) are not modelled, because the model's database does not fail. In `Store.GetLog` the count and listing statements are shown to succeed on every query the builder produces, so within the model their 500 paths are unreachable; the line on `Store.GetLog` below names the one case where the source does reach its listing 500.
- The clock is not modelled: `new Date()` is a parameter, `today`, of `Store.AddExercise`.
- `Number(duration)` is modelled by its outcome (`Numeric`: NaN, an integer, or any other number with its sign), because the floating-point conversion is out of scope. Whether the duration field is truthy is a separate input of `Store.AddExercise`, tied to that outcome by the JavaScript fact that every falsy value coerces to NaN or 0.
- Api.Store.GetLog: the model's `parseInt` returns an unbounded integer, whereas the source's returns a double. A `limit` of 2^63 or more (say `100000000000000000000000`) is bound as a REAL that SQLite cannot take as a `LIMIT`, so the source answers 500 "Database error" where the model answers with every row; limits between 2^53 and 2^63 are rounded, which changes nothing for a table of realistic size; route ids above 2^53 are rounded likewise, and no table reaches ids that large.
- The `typeof description !== 'string'` check and non-string request fields are left out: absent fields are `None`, and present fields are strings.
- A non-string `username` is left out (the source would crash on `trim()`), as are array-valued query parameters.
- `parseInt` is modelled for radix 10 only. The `0x` hexadecimal prefix and the cut at a decimal point or exponent are not distinguished from other non-digit text.
- `new Date(s)` is modelled for `YYYY-MM-DD` strings only. Other shapes, such as expanded years, count as invalid. This is never observable, because every call site also requires the format check.
- The schema's FOREIGN KEY is not enforced by SQLite by default. The model instead proves the handlers never store an exercise for a missing user.
- Database behaviour the handlers rely on is stated as part of the model: an unbound placeholder is NULL, a comparison with NULL never holds, and a negative `LIMIT` means no limit.
- Rows with equal dates keep their table order under the model's `ORDER BY date` (`Database.SortKeepsTies`). SQLite promises no order among them, so this is one ordering the database may choose, not the only one.
- The UNIQUE constraint's race (two concurrent requests with the same name) is not modelled, because concurrency is out.
- The tables' invariant bounds the exercise ids by their counter, which makes each new id fresh, but does not state that they increase in table order, because no handler depends on it.

## Findings

| source | as written | input that shows it | evidently intended | confidence | as-written member | corrected member |
|---|---|---|---|---|---|---|
| index.js:202 | the count statement gets `params.slice(0, params.length - 1)`, which drops the last parameter even when it is not the `LIMIT` argument | a user with one exercise and a log request without `limit`: a placeholder of the count statement is left NULL, so `count` is 0 although `log` has one entry | drop the last parameter only when a limit was pushed, so that `count` is the number of filtered rows | not executed | LogQuery.CountArgs, LogQuery.CountArityIffLimit, Database.CountAsWritten, Database.CountMissesLoneExercise | LogQuery.IntendedCountArgs, LogQuery.IntendedCountArity, Database.CountAsIntended |

`Store.GetLog` models the handler as written. Its `count` ensures states both cases, and the corrected count is proved beside it in `Database.CountAsIntended`.
