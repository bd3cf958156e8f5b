# User records service: validation and record rules

This project models the logic of a small user-records web service in Dafny.
A record is five strings: first name, last name, email, age and education.
The model covers four parts:

- the server's field validators: four anchored regular expressions and the
  truthiness-guarded `validateInput`;
- the MySQL record service, the controller the router actually serves;
- the Supabase record service, which is a near-duplicate with different
  edge cases;
- the browser client's checks before it sends a request.

The `users` table is a `UserTable` object whose fields are the rows
(`map<int, Record>`) and the next AUTO_INCREMENT id. Its methods `Insert`,
`Delete` and `Update` are the statements the handlers issue. Each handler
is a module-level method that takes the table and changes it through those
methods. A handler returns a `Response`: an HTTP code, the `status` word,
and the `errors`, `message` or `results` member. A database error is a
`bool` parameter of the handler.

The model files are:

- `js_values.dfy`: JavaScript values as a validator sees them (`undefined`,
  a string, or a number), truthiness, `a || b`, and `String(v)`.
- `validation.dfy`: each pattern as a declarative predicate, an executable
  matcher, and a proof that the two agree.
- `records.dfy`: fields, request bodies, error collection, the update merge,
  the first-failure chain, and responses.
- `store.dfy`: the `users` table.
- `user_controller.dfy`: the MySQL handlers.
- `supabase_controller.dfy`: the Supabase handlers.
- `client.dfy`: the client's trim, its own regular expressions, the add
  form, and the delete and update form preconditions.
- `end_to_end.dfy`: where client and server disagree, and what each update
  handler makes of the client's update body.

Modelling choices:

- The MySQL `age` column is an INT (`backend/db/db.config.js:25`). The MySQL
  `updateUser` therefore merges against the number read back, not the string
  that was stored. So a stored age of `0` is falsy. An update that does not
  resend the age then fails with "Invalid age", unless an earlier field
  (first name, last name or email) fails first and is reported instead.
- The Supabase schema is not part of this model, so its age is a string.
- `\s` and `String.prototype.trim` use the ECMAScript WhiteSpace and
  LineTerminator code points listed in `IsJsSpace`, all within the BMP.
- `email UNIQUE` (`backend/db/db.config.js:24`) is the `uniqueEmail` flag of
  the table. The schema sets no collation, so MySQL's default applies, and
  that default compares case-insensitively. The table's `caseInsensitive`
  flag says that emails are compared after ASCII case folding (`FoldCase`).
  An email that passes the server's pattern is all ASCII, so for such emails
  this folding is the whole of the collation's case rule. When `uniqueEmail`
  is set, an insert or update whose email equals a stored one under that
  comparison is a database error. For example, `A@b.co` clashes with a
  stored `a@b.co`. The Supabase table's collation is not part of this
  model, so either setting of the flag may stand for it.
- Every handler requires, and keeps, the invariant that every stored row
  passes every server pattern (`AllRecordsValid`). The invariant holds for
  an empty table.

Where the prose description of the service and the code disagree, the model
follows the code:

- The messages say names "must start with a capital letter", but the
  server's name pattern has no capital-first rule.
- The Supabase listing answers an empty table with 404 and `errors: null`,
  not with an empty success.
- The Supabase delete reports success even when no row matched.

## Model

| member | source | states |
|---|---|---|
| JsValues.Decimal | backend/db/db.config.js:25 | the numeral of n is a non-empty string of digits with no leading zero (unless it is "0"), one digit exactly for n < 10 |
| JsValues.DecimalRoundTrip | backend/db/db.config.js:25 | an INT column stores the number, and reading back the numeral written for n gives n |
| Validation.Span | backend/utils/validation.js:1-4 | the run of class characters starting at i: all in the class, and the next character is not |
| Validation.LastIndex | backend/utils/validation.js:2 | the last position of c in s, or -1; no occurrence follows it |
| Validation.MatchNameCorrect | backend/utils/validation.js:1 | the name matcher accepts exactly strings of 3 or more ASCII letters of either case (no capital-first rule) |
| Validation.MatchEmailCorrect | backend/utils/validation.js:2 | the backtracking-free email matcher accepts exactly the strings with a split local@domain.tld per the pattern: non-empty local part of `[A-Za-z0-9._%+-]`, non-empty `[A-Za-z0-9.-]` domain, a dot, 2 or more letters |
| Validation.EmailDotIsLast | backend/utils/validation.js:2 | in any match the `\.` is the last dot of the input |
| Validation.EmailHasOneAt | backend/utils/validation.js:2 | an accepted email contains exactly one '@', not at position 0 |
| Validation.MatchEducationCorrect | backend/utils/validation.js:4 | the education matcher accepts exactly strings of length 2..200 made of ASCII letters and whitespace |
| Validation.AgeCanonical | backend/utils/validation.js:3 | a string the age pattern accepts denotes a value in 0..120 and is that value's canonical numeral |
| Validation.DecimalInRangeMatches | backend/utils/validation.js:3 | the numeral of every integer in 0..120 passes the age pattern |
| Validation.AgeCharacterisation | backend/utils/validation.js:3 | the age pattern holds exactly for the sign-free, leading-zero-free numerals of 0..120 |
| Validation.MatchesCorrect | backend/utils/validation.js:1-4 | each `regex.test` matcher agrees with its declarative pattern |
| Validation.ValidateInputGuard | backend/utils/validation.js:6-8 | validateInput is false for every falsy value whatever the pattern; otherwise it equals the pattern's verdict on `String(v)` |
| Validation.GuardDecides | backend/utils/validation.js:7 | the guard matters: `String(undefined)` matches the name pattern and the number 0 matches the age pattern, yet both are rejected |
| Validation.NoPatternMatchesEmpty | backend/utils/validation.js:1-4 | no pattern accepts the empty string |
| Validation.TrailingNewline | backend/utils/validation.js:1-4 | the patterns are anchored at the end: a trailing newline fails name, email and age; education accepts it, since `\s` includes the newline |
| Validation.NameExamples | backend/utils/validation.js:1 | "john" and "John" pass the name pattern; "Jo" and "Jo3" fail it |
| Validation.AgeExamples | backend/utils/validation.js:3 | "0" and "120" pass the age pattern; "121", "-1", "007" and "abc" fail it |
| Validation.EmailExamples | backend/utils/validation.js:2 | "a@b.co" passes the email pattern; "a@.co" (empty domain) and "a@b.c" (one-letter top-level part) fail it |
| Records.ReadBody | backend/controllers/userController.js:11 | each destructured field is the body member under its key, or `undefined` when the key is absent |
| Records.CollectSubmitErrors | backend/controllers/userController.js:12-28 | one message per failing field, in field order, without stopping at the first failure; the list is empty exactly when every field passes, and a field's message is present exactly when that field fails |
| Records.FailingMessagesByField | backend/controllers/userController.js:14-29 | when each message names its own field, the list after n pushes is empty exactly when the first n checks pass, and holds a field's message exactly when that field is among the first n and fails |
| Records.SubmitErrorsMessages | backend/controllers/userController.js:14-29 | the submit error list is empty exactly when all fields are valid, and contains a field's message exactly when that field fails |
| Records.SubmitMessagesNameFields | backend/controllers/userController.js:15-27 | each submit message names its own field by its first word, so the five are pairwise different |
| Records.FirstFailure | backend/controllers/userController.js:88-102 | the merged record is checked in field order: None exactly when all fields pass, otherwise the reported field fails and every earlier field passes |
| Records.MergeField | backend/controllers/userController.js:82-86 | each merged field is the request value when it is truthy, else the stored value |
| Records.MergeNothing | backend/controllers/userController.js:82-86 | a request with no truthy field merges to the stored values |
| Records.MergeIdempotent | backend/controllers/userController.js:82-86 | merging the same request a second time changes nothing |
| Records.ValidValuesStoreValidRecord | backend/controllers/userController.js:33-36 | values that pass every check are stored as a row whose strings pass every check |
| Records.ValidBodyIsStored | backend/controllers/userController.js:33-36 | when every field passes, every key is present and its string is stored as sent |
| Records.StringValuesRoundTrip | backend/controllers/supabaseControllers.js:122-127 | a row's strings passed back unchanged are stored as that row |
| Records.EnumeratesEmpty | backend/controllers/userController.js:47-53 | a listing of all rows is empty exactly when the table is empty |
| Store.LowerAscii | backend/db/db.config.js:24 | an ASCII capital becomes its lower-case letter; every other character is kept |
| Store.FoldCase | backend/db/db.config.js:24 | the folded key has the input's length and lower-cases every ASCII letter in place |
| Store.FoldCaseEqual | backend/db/db.config.js:24 | two emails have the same key exactly when they agree position by position up to ASCII case |
| Store.FoldCaseIdempotent | backend/db/db.config.js:24 | folding a folded key changes nothing |
| Store.CaseOnlyClashIsTaken | backend/db/db.config.js:24 | under the case-insensitive unique index, "A@b.co" is taken when "a@b.co" is stored |
| Store.UserTable.constructor | backend/db/db.config.js:20-27 | a new table is empty and its next id is 1 |
| Store.UserTable.Insert | backend/db/db.config.js:21-24 | the row gets the next AUTO_INCREMENT id, which was not in use; a driver error or an email equal to a stored one under the index's comparison leaves the table unchanged |
| Store.UserTable.Delete | backend/controllers/userController.js:58 | DELETE by id removes exactly that row and returns it; otherwise nothing changes |
| Store.UserTable.Update | backend/controllers/userController.js:104-107 | UPDATE by id replaces exactly that row and reports 1 affected row; a missing id reports 0; a driver error or a duplicate email changes nothing |
| Store.RowsFrom | backend/controllers/supabaseControllers.js:56-59 | the rows with ids in [lo, hi), by ascending id, each present in the table and every such table row present |
| Store.RowsById | backend/controllers/supabaseControllers.js:56-59 | `select * order by id`: every row exactly once, with ascending ids |
| UserController.SubmitUser | backend/controllers/userController.js:10-45 | any failing field gives 400 with the full error list and no insert; otherwise a driver error (or duplicate email) gives 500 "Database error" and no insert; otherwise 200, and exactly one row holding the five submitted strings is added under a fresh id |
| UserController.GetAllUsers | backend/controllers/userController.js:47-54 | a driver error gives 500; otherwise success with every row exactly once (in no promised order), and an empty table gives success with an empty list |
| UserController.DeleteUser | backend/controllers/userController.js:56-67 | a driver error gives 500; a missing id gives 404 "User not found" with the table unchanged; otherwise only that row is removed |
| UserController.UpdateUser | backend/controllers/userController.js:69-119 | a read error gives 500 and a missing id gives 404, before any merge, check or write; the merged record's first failing field gives 400 with its message and no write; a write error or duplicate email gives 500; otherwise 200 and the row under the same id becomes the merged record |
| UserController.StoredAgeRoundTrip | backend/controllers/userController.js:81-85 | a valid stored age is read back as a number in 0..120 whose string form is the stored digits |
| UserController.EmptyUpdateKeepsRow | backend/controllers/userController.js:81-107 | an update that sets no field passes validation and rewrites the row unchanged, as long as its stored age is not 0 |
| UserController.StoredZeroAgeBlocksUpdate | backend/controllers/userController.js:85-98 | with stored age 0 and no new age, the first failure is the age, whatever valid values the other fields get |
| SupabaseController.SubmitUser | backend/controllers/supabaseControllers.js:10-53 | the same outcomes as the MySQL submit: 400 with every failing field's message and no insert, 500 with the message "Database error", or 200 with one new row of the submitted strings |
| SupabaseController.GetAllUsers | backend/controllers/supabaseControllers.js:55-69 | a driver error gives 500; an empty table gives 404 with status "error" and `errors: null`; otherwise success with every row once, by ascending id |
| SupabaseController.ByeName | backend/controllers/supabaseControllers.js:92 | the farewell name is the deleted row's first name, or "" when nothing was deleted |
| SupabaseController.DeleteUser | backend/controllers/supabaseControllers.js:71-93 | a driver error gives 500; otherwise always 200 "User deleted successfully! Bye " plus the deleted row's first name, or nothing more when no row matched; only that row is removed |
| SupabaseController.UpdateUser | backend/controllers/supabaseControllers.js:96-183 | a missing id gives 404 "No users found" even for an empty body; a body with no truthy `update*` field gives 400 and no write; the first failing merged field gives 400; a write error gives 500; otherwise 200 and the row becomes the merged record, with no affected-row check |
| SupabaseController.UpdateWritesRequestOverRow | backend/controllers/supabaseControllers.js:122-175 | for a valid stored row and valid given values, the merged record passes every check and stores each given value over the stored one |
| Client.TrimStart | frontend/index.js:140-144 | strips exactly the leading whitespace |
| Client.TrimEnd | frontend/index.js:140-144 | strips exactly the trailing whitespace |
| Client.Trim | frontend/index.js:140-144 | `trim()` leaves no whitespace at either end and is no longer than its input |
| Client.TrimIsSlice | frontend/index.js:140-144 | `trim()` is the slice of the input between its leading and trailing whitespace |
| Client.TrimEmpty | frontend/index.js:140-144 | `trim()` is empty exactly when the input is all whitespace |
| Client.TrimIdempotent | frontend/index.js:140-144 | trimming twice is trimming once |
| Client.MatchClientNameCorrect | frontend/index.js:127 | the client name matcher accepts exactly an uppercase ASCII letter followed by 1 or more lowercase letters |
| Client.MatchClientEducationCorrect | frontend/index.js:130 | the client education matcher accepts exactly 0..100 ASCII letters or whitespace |
| Client.ClientMessagesNameFields | frontend/index.js:151-171 | each client message names its own field by its first word, so the five are pairwise different |
| Client.ClientErrorsMessages | frontend/index.js:146-172 | the add form's error list is empty exactly when every field passes, and holds a field's message exactly when that field fails |
| Client.CollectClientErrors | frontend/index.js:146-172 | every check runs; the messages of the failing fields come in field order; `isValid` is true exactly when the list is empty, which is exactly when every field passes; an empty education is not checked |
| Client.SubmitAddForm | frontend/index.js:140-196 | the inputs are trimmed; the error list is that of the trimmed fields; a body is sent exactly when there is no error, with the `user*` keys and an empty education sent as "Not Available" |
| Client.DeleteRequest | frontend/index.js:276-280 | the delete form refuses, with its message, exactly when the id is all whitespace; otherwise it sends the trimmed id |
| Client.UpdateRequest | frontend/index.js:325-361 | the update form refuses for a blank id, then for five blank fields, each with its own message; otherwise it sends the trimmed id and a body holding all five trimmed values under the `update*` keys |
| EndToEnd.DefaultEducationPasses | frontend/index.js:195 | "Not Available" satisfies the server's education pattern |
| EndToEnd.AddBodyRead | frontend/index.js:190-196 | the services read the add form's body as the trimmed values, with the default education |
| EndToEnd.NameOnServer | frontend/index.js:127 | a client-accepted name passes the server exactly when it has 3 or more characters |
| EndToEnd.EducationOnServer | frontend/index.js:130 | a client-accepted education (or the default for an empty one) passes the server exactly when it is empty or has 2 or more characters |
| EndToEnd.AcceptedValuesOnServer | frontend/index.js:146-196 | the values read from an accepted form's body pass every server check exactly when both names have 3 or more characters and the education is empty or has 2 or more |
| EndToEnd.AcceptedFormOnServer | frontend/index.js:146-196 | for a form the client accepts, the server accepts its body exactly when both names have 3 or more characters and the education is empty or has 2 or more |
| EndToEnd.NameChecksDisagree | frontend/index.js:127 | "Jo" passes the client and fails the server; "john" passes the server and fails the client |
| EndToEnd.UpdateBodyInvisibleToMySql | frontend/index.js:355-361 | the MySQL update handler reads `user*` keys, so it finds no field in the client's update body |
| EndToEnd.MySqlIgnoresClientUpdate | backend/controllers/userController.js:71-107 | through the served route, a client update rewrites the stored row unchanged, whatever was typed, or fails with "Invalid age" when the stored age is 0 |
| EndToEnd.UpdateBodyRead | backend/controllers/supabaseControllers.js:98-104 | the Supabase update handler reads the client's update body as the five trimmed values |
| EndToEnd.SupabaseSeesClientUpdate | backend/controllers/supabaseControllers.js:130-141 | an update the client sends always passes the Supabase at-least-one-field check |

## Left out

- DOM work, notifications, table rendering, button states and timers in `frontend/index.js`: these are user-interface effects with nothing to prove about them.
- `fetch`, JSON parsing and network errors: these are I/O. The model stops at the body the client would send.
- Request bodies whose members are not strings (numbers, `null`, nested objects): a body is a map from keys to strings.
- The `:id` route parameter is an integer. The string-to-integer coercion done by MySQL and PostgREST is not modelled.
- Column widths (`VARCHAR(50)` and the others) and the age `CHECK`: a write these reject is covered by the driver-error parameter, not checked separately.
- Store.UserTable.Insert: a failed insert does not consume an AUTO_INCREMENT id. The gaps MySQL can leave are not modelled, because ids here are only compared, never computed from.
- Store.UserTable.Update: the table is updated in one atomic step. A row deleted between the handler's SELECT and its UPDATE (the only way to get 0 affected rows after a successful read) is not modelled. So the 404 after the MySQL UPDATE is written but never taken.
- Concurrency between requests: each handler is one atomic step on the table.
- Rows not written through these handlers: `CREATE TABLE IF NOT EXISTS` (`backend/db/db.config.js:20`) may find a table that already holds rows, possibly ones that fail the patterns. The model covers only tables whose every row passes every server pattern. That invariant holds for an empty table, and every handler keeps it. So cases such as a stored first name `jo1` are not modelled. On such a row, an update that does not resend the first name would answer 400 "Invalid first name".
- Collations other than case folding: the model folds ASCII case only. Accent-insensitive or padding rules of the server's collation do not arise for emails that pass the pattern, since such emails are ASCII with no spaces.
- The client's `validateInput` (`frontend/index.js:132-134`), which is `pattern.test(value)`: nothing in the client calls it, since the add form tests its regular expressions directly. What it would compute is the matchers in `client.dfy` and `validation.dfy`.
- The Supabase `updateUser` read-error branch: the handler tests `err`, which the client library never sets, so a failed SELECT is not handled there. The model gives that handler no read-failure parameter.
- UserController.GetAllUsers: promises no order, because the query has no ORDER BY. The listing built in the model happens to be ascending.
- `\s` is the fixed list of code points in `Validation.IsJsSpace`. Code points outside the Basic Multilingual Plane do not arise in it.
- The listings return the stored strings. That the MySQL listing outputs `age` as a JSON number is not modelled.
- `backend/server.js`, `backend/routes/userRoutes.js` and the connection setup in `backend/db/db.config.js` are Express, CORS and driver wiring. The route file is used only to note that `userController.js` is the controller served.
