# Leave management, modelled in Dafny

This project models the backend of a leave-management service:

- employees apply for leave;
- managers approve or reject applications;
- a dashboard shows statistics;
- users register and log in to get a JSON Web Token;
- a middleware gate checks that token.

The model covers the Express controllers, the middleware and the two Mongoose schemas.

## How the system is represented

- **Collections.** Each MongoDB collection is an in-memory table keyed by id:
  - `LeaveControllers.LeaveStore.applications` is a `map<Id, LeaveApplication>`;
  - `AuthController.UserDirectory.users` is a `map<Id, User>`.

  A counter `nextId` stands in for ObjectId generation.
- **Handlers.** A handler's outcome is an `Http.Response`. Each of `Ok` (200), `Created` (201), `BadRequest` (400), `Unauthorized` (401), `Forbidden` (403), `NotFound` (404) and `ServerError` (500) carries either the message the handler sends or its payload.
- **Handlers that change a table** are methods of the class that owns it. Their contract gives:
  - the response, as a specification function of the old table and the request;
  - the new table;
  - the class invariant.
- **Read-only handlers** are functions over the map: the listings, get-by-id, statistics and login.
- **Dates** are whole day numbers. Day 0 is 1 January 1970, a Thursday, and `getDay()` is `(d + 4) % 7`. The clock's "now" is a parameter, and so are the current year and month that the statistics use.
- **Strings** are `seq<char>`.
- **Mongoose behaviour** is stated explicitly:
  - the `trim` setters;
  - the `lowercase` setter on `email`;
  - `required`, which fails on undefined and on `""`;
  - `minlength`, `enum` and defaults;
  - validation at `save()`, which runs before any user `pre('save')` hook.
- **Queries.** `find`, `findOne` and `countDocuments` cast their filter values through the schema's setters. An `aggregate` `$match` does not.
- **bcrypt** is a free term model:
  - `Secret = Plain(text) | Hashed(preimage)`;
  - `bcrypt.hash` builds `Hashed`;
  - `bcrypt.compare(p, s)` holds exactly when `s == Hashed(Plain(p))`;
  - every hash string is 60 characters long.
- **jsonwebtoken:**
  - signing builds a `Token` from the `_id` claim, the key and a 7-day lifetime;
  - verifying is a function parameter returning the claims or one of three failures.

The model follows the code as written. In three places the code's own text states an intent that the code does not carry out. The as-written behaviour and the intended one are both modelled, and "## Findings" lists them:

- `requireManager` answers 403 with "Manager access required" (backend/middleware/authMiddleware.js:29), yet it refuses managers;
- the schema declares `minlength: 6` on `password` (backend/models/userModel.js:26), yet a one-character password is accepted;
- login compares the typed password with the stored hash (backend/controllers/authController.js:103), yet the stored field is hashed twice.

"## Findings" also lists a fourth discrepancy, which no text in the code announces: the statistics count records through a filter that the schema's `trim` setter casts, but group them through an aggregation `$match` that takes the raw query value (backend/controllers/leaveControllers.js:255-258).

Modules, one per source concern:

- `Wrappers`, `Text`, `Http`: `Option`, the JavaScript string operations, and responses.
- `Calendar`: weekdays, working days and month starts.
- `LeaveModel`, `UserModel`: the two schemas.
- `LeaveControllers`: create, get, update and delete, and the `LeaveStore` class.
- `LeaveQueries`: the listings and the statistics.
- `AuthController`: tokens, register, login, and the `UserDirectory` class.
- `AuthMiddleware`: `requireAuth`, `requireManager` and the `Request` class.

## Model

| member | source | states |
|---|---|---|
| Text.Trim | backend/models/leaveModel.js:5-9 | the `trim` setter's result has no whitespace at either end and is no longer than its input |
| Text.TrimIsInfix | backend/models/leaveModel.js:5-9 | what `trim` keeps is a contiguous part of the input and everything cut off is whitespace |
| Text.TrimFixesTrimmed | backend/models/leaveModel.js:5-9 | an already trimmed value is left unchanged by the setter |
| Text.TrimIdempotent | backend/models/leaveModel.js:5-9 | trimming twice is trimming once, so re-saving a stored value does not change it |
| Text.TrimSkipsLeadingSpace | backend/models/leaveModel.js:5-9 | a leading whitespace character never survives `trim` |
| Text.SetTrimmed | backend/models/leaveModel.js:43-46 | an optional string field stays undefined when absent and is stored trimmed when given |
| Text.Lower | backend/models/userModel.js:16-22 | `toLowerCase` keeps the length, maps each character, and leaves no upper-case letter |
| Text.LowerKeepsTrimmed | backend/models/userModel.js:16-22 | lowercasing after trimming keeps the value trimmed |
| Text.ReplaceFirst | backend/middleware/authMiddleware.js:4 | a string `replace` rewrites only the first occurrence, wherever it is, and nothing when there is none |
| Text.ReplaceFirstAtFront | backend/middleware/authMiddleware.js:4 | removing a pattern that opens the string leaves exactly the rest |
| Calendar.Weekday | backend/controllers/leaveControllers.js:45 | `getDay()` is always in 0..6 |
| Calendar.WorkingDays | backend/controllers/leaveControllers.js:40-50 | the count never exceeds the length of the inclusive range and is 0 for a reversed range |
| Calendar.WorkingDaysCountsTheSet | backend/controllers/leaveControllers.js:40-50 | the count is exactly the number of days in [start, end] that are neither Saturday nor Sunday |
| Calendar.WorkingDaysSplit | backend/controllers/leaveControllers.js:40-50 | counting a range equals counting its two halves |
| Calendar.SingleDay | backend/controllers/leaveControllers.js:40-50 | a single weekday counts 1, a single weekend day 0 |
| Calendar.NextWeekday | backend/controllers/leaveControllers.js:49 | advancing the date one day advances `getDay()` by one, wrapping Saturday to Sunday |
| Calendar.WeekHasFiveWorkingDays | backend/controllers/leaveControllers.js:40-50 | any seven consecutive days hold exactly five working days |
| Calendar.MondayToFriday | backend/controllers/leaveControllers.js:40-50 | Monday to Friday counts 5 |
| Calendar.WeekendOnly | backend/controllers/leaveControllers.js:40-50 | a Saturday-Sunday range counts 0 |
| Calendar.DaysInMonth | backend/controllers/leaveControllers.js:265-271 | every month has 28 to 31 days |
| Calendar.YearLength | backend/controllers/leaveControllers.js:265-271 | a year spans 366 days when it is a leap year, 365 otherwise |
| Calendar.MonthsFillTheYear | backend/controllers/leaveControllers.js:265-271 | the twelve months add up to the length of the year |
| Calendar.DaysBeforeMonth | backend/controllers/leaveControllers.js:268 | the months before month `m` hold between 28·m and 31·m days |
| Calendar.MonthStart | backend/controllers/leaveControllers.js:268-269 | `new Date(y, m, 1)` falls within the year that `m` rolls over into, and within year `y` itself for `m` in 0..11 |
| Calendar.MonthStartInYear | backend/controllers/leaveControllers.js:268 | `new Date(y, m, 1)` is the year's first day plus the months before `m` |
| Calendar.MonthStartRollsOver | backend/controllers/leaveControllers.js:269 | `new Date(y, 12, 1)` is 1 January of the next year, so December's window ends correctly |
| Calendar.MonthWindow | backend/controllers/leaveControllers.js:265-271 | the "this month" window holds exactly the days of the current month |
| LeaveModel.ParseLeaveType | backend/models/leaveModel.js:20-25 | the `leaveType` enum accepts exactly the six type names |
| LeaveModel.ParseStatus | backend/models/leaveModel.js:47-51 | the `status` enum accepts exactly Pending, Approved and Rejected |
| LeaveModel.Instantiate | backend/models/leaveModel.js:4-69 | validation succeeds exactly when the required fields are present after trimming and both enums hold; the stored record is trimmed, copies the given fields, defaults status to Pending and appliedDate to now, and leaves the review fields undefined |
| LeaveControllers.CountWorkingDays | backend/controllers/leaveControllers.js:40-50 | the day-by-day loop returns the number of working days of the inclusive range |
| LeaveControllers.CreateResult | backend/controllers/leaveControllers.js:4-82 | 400 exactly when one of the five checked fields is missing or start > end; 201 exactly when those checks pass and the schema accepts the fields, start == end included; otherwise a Pending record of the range's working days applied for now, with the input's trimmed fields, or a 500 when the schema rejects department, reason or leaveType |
| LeaveControllers.SameDayAccepted | backend/controllers/leaveControllers.js:33-50 | a one-day leave with valid fields is created, counting 1 working day on a weekday and 0 on a weekend |
| LeaveControllers.GetResult | backend/controllers/leaveControllers.js:131-156 | the record under the id, or 404 exactly when there is none |
| LeaveControllers.UpdateStatusResult | backend/controllers/leaveControllers.js:159-203 | 400 for a status outside the three before any lookup, then 404 for an unknown id; otherwise status, reviewedBy, reviewDate = now and comments are overwritten whatever the prior status, and nothing else |
| LeaveControllers.DeleteResult | backend/controllers/leaveControllers.js:206-241 | 404 for an unknown id, 400 for a record no longer Pending, success exactly for a Pending record |
| LeaveControllers.DeletedIsGone | backend/controllers/leaveControllers.js:210-227 | after a successful delete a get on that id is 404 and every other record is unchanged |
| LeaveControllers.ReviewedCannotBeDeleted | backend/controllers/leaveControllers.js:183-225 | a record just approved or rejected cannot be deleted |
| LeaveControllers.ReReviewIsAllowed | backend/controllers/leaveControllers.js:165-188 | any record can be set back to Pending, after which it is deletable again |
| LeaveControllers.Reviewed | backend/controllers/leaveControllers.js:183-186 | the review writes status, the trimmed reviewedBy, reviewDate = now and the trimmed comments, and every other field keeps its value |
| LeaveControllers.ReviewKeepsConsistent | backend/controllers/leaveControllers.js:183-188 | a review keeps the record valid and its working days matching its range |
| LeaveControllers.LeaveStore.CreateLeaveApplication | backend/controllers/leaveControllers.js:4-82 | the response is `CreateResult`; on success exactly one record is added under a fresh id, otherwise the store is unchanged; the store invariant is kept |
| LeaveControllers.LeaveStore.Store | backend/controllers/leaveControllers.js:67 | `save()` adds the record under the next fresh id and keeps the invariant |
| LeaveControllers.LeaveStore.UpdateLeaveStatus | backend/controllers/leaveControllers.js:159-203 | the response is `UpdateStatusResult`; on success only that record is replaced, otherwise nothing changes |
| LeaveControllers.LeaveStore.DeleteLeaveApplication | backend/controllers/leaveControllers.js:206-241 | the response is `DeleteResult`; exactly that id is removed on success, nothing otherwise |
| LeaveQueries.CastKeepsTrimmed | backend/controllers/leaveControllers.js:112 | casting a trimmed query value leaves it unchanged |
| LeaveQueries.NewestExists | backend/controllers/leaveControllers.js:87-88 | a non-empty table has a most recently applied record |
| LeaveQueries.Ordered | backend/controllers/leaveControllers.js:87-88 | the sort lists every record exactly once, most recent appliedDate first |
| LeaveQueries.Selected | backend/controllers/leaveControllers.js:112 | a filter keeps exactly the records with that employeeId, unchanged |
| LeaveQueries.GetAllLeaveApplications | backend/controllers/leaveControllers.js:85-105 | every record exactly once, sorted by appliedDate descending |
| LeaveQueries.GetEmployeeLeaves | backend/controllers/leaveControllers.js:108-128 | exactly the records whose employeeId is the cast parameter, each once, sorted by appliedDate descending |
| LeaveQueries.Distribution | backend/controllers/leaveControllers.js:255-258 | one count per leave type that occurs, equal to the number of its records, and none for absent types |
| LeaveQueries.StatusesPartition | backend/controllers/leaveControllers.js:249-252 | the three status counts add up to the total |
| LeaveQueries.OfTypeRemove | backend/controllers/leaveControllers.js:255-258 | removing a record lowers only its own type's count, by one |
| LeaveQueries.TypeSetsPartition | backend/controllers/leaveControllers.js:255-258 | the six type counts add up to the number of records |
| LeaveQueries.TypesPartition | backend/controllers/leaveControllers.js:255-258 | the distribution's counts add up to the number of records |
| LeaveQueries.Tally | backend/controllers/leaveControllers.js:247-271 | total, approved, rejected and pending count the records the count filter selects, overall and per status; thisMonthLeaves counts those applied in [first of this month, first of next month); the distribution is that of the records the match filter selects; the status counts sum to the total, the month count is at most the total, and the distribution sums to the total when both filters agree |
| LeaveQueries.GetLeaveStatistics | backend/controllers/leaveControllers.js:244-292 | every count is over the records whose employeeId is the cast query value, or over all records without one: the total, each status, and the records applied this month; the distribution is over the records matching the raw query value; status counts sum to the total, the month count is at most the total, and for a trimmed query value the distribution sums to the total |
| LeaveQueries.GetLeaveStatisticsCast | backend/controllers/leaveControllers.js:247-258 | with the aggregation filtered like the counts, every count and the distribution are over the same selected records, and the distribution sums to the total for every query |
| LeaveQueries.ThisMonthIsTheCalendarMonth | backend/controllers/leaveControllers.js:265-271 | the month window selects exactly the records applied on one of the current month's days |
| LeaveQueries.FilterIsUniform | backend/controllers/leaveControllers.js:247-271 | filtered statistics are the statistics of that employee's records alone |
| LeaveQueries.SelectedSingleton | backend/controllers/leaveControllers.js:247 | a filter over one record keeps it exactly when the ids match |
| LeaveQueries.DistributionOfNone | backend/controllers/leaveControllers.js:255-258 | no records give an empty distribution |
| LeaveQueries.DistributionSingleton | backend/controllers/leaveControllers.js:255-258 | one record gives a count of 1 for its type |
| LeaveQueries.PaddedQueryCasts | backend/controllers/leaveControllers.js:249 | a query value with a leading space is cast to the unpadded id |
| LeaveQueries.PaddedQuerySplitsStatistics | backend/controllers/leaveControllers.js:247-258 | as written, a padded query counts the record in the total but gives an empty distribution |
| LeaveQueries.PaddedQueryCastStatistics | backend/controllers/leaveControllers.js:247-258 | with the cast filter, the same query counts the record in the distribution too |
| UserModel.ParseRole | backend/models/userModel.js:33-37 | the `role` enum accepts exactly employee, manager and admin |
| UserModel.Hash | backend/models/userModel.js:45 | a hash never equals the value hashed |
| UserModel.HashIsNew | backend/models/userModel.js:45 | no value is its own hash, however often it was hashed before |
| UserModel.Compare | backend/controllers/authController.js:103 | a stored field that matches is a 60-character hash and never the plaintext itself |
| UserModel.CompareIsExact | backend/controllers/authController.js:103 | in the term model, the hash of a plaintext accepts that plaintext and no other (bcryptjs truncation at 72 bytes is left out) |
| UserModel.DoubleHashMatchesNothing | backend/controllers/authController.js:103 | in the term model, a hash of a hash accepts no plaintext (the inner hash string itself is not a plaintext the model can type) |
| UserModel.NormalEmail | backend/models/userModel.js:16-22 | the stored email is trimmed then lowercased, so it is trimmed and has no upper-case letter |
| UserModel.Instantiate | backend/models/userModel.js:4-40 | validation succeeds exactly when the required fields are present after the setters, the stored password field is at least 6 characters and the role is in the enum; the user copies the set fields and defaults the role to employee |
| UserModel.AddKeepsKeysUnique | backend/models/userModel.js:5-22 | adding a user whose employeeId and email are both unused keeps both keys unique |
| UserModel.UserDocument.PreSave | backend/models/userModel.js:43-48 | when the password was modified it is replaced by its hash, and nothing else changes |
| UserModel.HashKeepsSchemaValid | backend/models/userModel.js:23-27 | hashing the password field keeps a valid user valid |
| AuthController.CreateToken | backend/controllers/authController.js:9-15 | fails exactly when no key is configured; otherwise a token with only the `_id` claim, signed with the key, valid 7 days |
| AuthController.ViewOmitsPassword | backend/controllers/authController.js:60-68 | the response user does not depend on the password field |
| AuthController.Taken | backend/controllers/authController.js:33 | the `$or` lookup finds a user exactly when the lookup by the cast employeeId finds one or a user has the cast email |
| AuthController.Registering | backend/controllers/authController.js:20-76 | 400 exactly when a field is missing or a key is taken, with nothing stored; a user is stored exactly when the document validates; 201 with the token and the user exactly when stored and a key is configured; 500 for a validation failure or a missing key |
| AuthController.RegisterSavesUser | backend/controllers/authController.js:42-55 | the stored user is schema-valid, has the trimmed fields, the lowercased email, the requested role or employee, a hashed password that is never the plaintext, and fresh keys |
| AuthController.RegisterResult | backend/controllers/authController.js:20-76 | as written: the stored password field is the hash of the hash of the plaintext, and a user is stored regardless of the plaintext's length |
| AuthController.IntendedRegisterResult | backend/controllers/authController.js:42-55 | with only the hook hashing: the stored field is one hash of the plaintext, and a plaintext shorter than 6 characters is refused |
| AuthController.FindByEmployeeId | backend/controllers/authController.js:94 | the user with that employeeId and the least id (the model's choice, since `findOne` without a sort promises no order); none exactly when there is no such user; the only one under unique keys |
| AuthController.FindsOnlyMatch | backend/controllers/authController.js:94 | a user whose employeeId nobody else has is the one found |
| AuthController.LoginResult | backend/controllers/authController.js:81-130 | 400 without both fields; 401 "Invalid credentials" when no user with that id has a matching password; a 200 always carries a token and the view of a user whose id and password match |
| AuthController.UnknownIdLooksLikeWrongPassword | backend/controllers/authController.js:93-109 | an unknown employee id and a wrong password get the identical 401 response |
| AuthController.RegisterKeepsKeysUnique | backend/controllers/authController.js:32-55 | registering keeps employeeId and email unique across users |
| AuthController.LoginAsOnlyMatch | backend/controllers/authController.js:93-122 | for a user whose employeeId nobody else has, login depends only on that user's password field and the key |
| AuthController.RegisteredUserCannotLogIn | backend/controllers/authController.js:42-55 | as written, the registered password does not log a newly registered user in, and neither does any other plaintext the model can express |
| AuthController.PasswordLengthIgnored | backend/controllers/authController.js:42-55 | as written, if one password is accepted then so is any other non-empty one |
| AuthController.ShortPasswordAccepted | backend/controllers/authController.js:42-55 | as written, a 1-5 character password is stored for a well-formed form with unused keys, which the intended schema refuses |
| AuthController.IntendedRegistrationLogsIn | backend/controllers/authController.js:81-122 | with a single hash, the new user logs in with their password and gets their own record and a token for their id |
| AuthController.IntendedRegistrationRefusesShortPassword | backend/models/userModel.js:23-27 | with a single hash, a plaintext under 6 characters fails validation and nothing is stored |
| AuthController.AddUserKeepsDirectoryValid | backend/controllers/authController.js:55 | storing a valid user with unused keys under the fresh id keeps the table invariant |
| AuthController.RegisterAfterChecks | backend/controllers/authController.js:41-68 | after the two checks, the outcome depends only on validation and on whether a key is configured |
| AuthController.UserDirectory.Store | backend/controllers/authController.js:55 | `save()` adds the user under the next fresh id and keeps the invariant |
| AuthController.UserDirectory.Register | backend/controllers/authController.js:20-76 | the response is `RegisterResult`; the table grows by exactly the stored user when there is one and is unchanged otherwise; the invariant is kept |
| AuthMiddleware.ExtractToken | backend/middleware/authMiddleware.js:4 | no header gives no token; otherwise the first "Bearer " is cut out wherever it occurs, and a header without it is taken whole |
| AuthMiddleware.BearerHeaderGivesToken | backend/middleware/authMiddleware.js:4 | "Bearer t" yields the token t |
| AuthMiddleware.Authenticate | backend/middleware/authMiddleware.js:3-23 | 401 "Authentication required" for a missing or empty token; 401 "Invalid or expired token" for any failed verification; success exactly when a non-empty token verifies, with its claims |
| AuthMiddleware.BareBearerIsRefused | backend/middleware/authMiddleware.js:4-11 | a header of exactly "Bearer " is refused as unauthenticated |
| AuthMiddleware.FailuresLookAlike | backend/middleware/authMiddleware.js:13-22 | every kind of verification failure gets the same response |
| AuthMiddleware.Request.RequireAuth | backend/middleware/authMiddleware.js:3-23 | the response is `Authenticate`'s, and `req.user` is set to the claims exactly on success |
| AuthMiddleware.RequireManager | backend/middleware/authMiddleware.js:25-33 | passes exactly for the roles employee and admin; every other role, manager included, gets 403 |
| AuthMiddleware.RequireManagerIntended | backend/middleware/authMiddleware.js:25-33 | passes exactly for manager and admin, 403 otherwise |
| AuthMiddleware.ManagerGateInverted | backend/middleware/authMiddleware.js:26 | for managers and employees the gate as written decides the opposite of the intended one |
| AuthMiddleware.IssuedTokensLackRole | backend/controllers/authController.js:14 | tokens from login and register carry no role, so both gates refuse them |

## Left out

- Express and MongoDB wiring (`backend/index.js`, `backend/Routes/leaveRoute.js`) is not part of this model. This includes that `requireManager` is never mounted and that `requireAuth` is mounted twice.
- Dates carry no time of day or timezone. Date strings are not parsed, so an invalid date is not modelled.
- bcrypt salts, cost factors and randomness are left out. So are JWT signature and expiry internals, beyond a verification parameter.
- The `error.message` text of the generic 500 catch blocks is left out. Only the leading words of the user validation message are kept. Console logging and the success message texts are left out too.
- Non-string body and query values are not modelled: the model's request fields are strings or absent. In the source such a value takes several paths. A falsy `0` or `false` in a field checked for presence (backend/controllers/leaveControllers.js:21, backend/controllers/authController.js:25 and :86) answers 400. Any non-string `status` fails `validStatuses.includes` and answers 400 before a document is touched (backend/controllers/leaveControllers.js:166-171). A malformed ObjectId in a path parameter makes the handler fail into its 500 branch. A repeated `?employeeId=a&employeeId=b` reaches getLeaveStatistics (backend/controllers/leaveControllers.js:247) as an array, which `countDocuments` reads as `$in` while the `$match` compares it whole.
- Query operators in body fields are not modelled. In the lookups of register (backend/controllers/authController.js:33) and login (backend/controllers/authController.js:94), Mongoose reads an object such as `{"$ne": null}` as a query operator and an array as `$in`. So a login with such an `employeeId` finds a user and goes on to `compare`, and a register with `email: {"$gt": ""}` matches any existing user and answers 400. The model's lookups compare strings only.
- `userModel.generateAuthToken` is never called and refers to an unimported `jwt`, so it is left out.
- The `timestamps` option (createdAt and updatedAt) is left out.
- Concurrent requests and the interleaving of their awaits are left out. Each handler is one atomic step.
- `requireManager` with no `req.user` throws a TypeError in the source. The model takes the claims as given.
- `trim` uses ASCII whitespace only, and `toLowerCase` maps ASCII letters only.
- The order among records with equal appliedDate is left open. Both listings are stated as sorted permutations.
- The `$group` output is modelled as a map from leave type to count. Its array encoding and order are left out.
- UserModel.CompareIsExact: holds in the term model only. bcryptjs reads just the first 72 bytes of a password, so two passwords that agree on their first 72 bytes match the same hash; the "no other password" half holds only for passwords of at most 72 bytes.
- UserModel.DoubleHashMatchesNothing: holds in the term model only. In bcryptjs the inner 60-character hash string, typed as a password, matches the double hash.
- AuthController.RegisteredUserCannotLogIn: holds for every typed password only because the model keeps a plaintext apart from every hash. In bcrypt a client who typed the 60-character intermediate hash string would pass `compare`. Register never sends that string, so the registered password is still refused.
- AuthController.UserDirectory.Register: models the code as written, with the double hash. The corrected registration exists only as the function `AuthController.IntendedRegisterResult` and the lemmas about it.

## Findings

| source | as written | input that shows it | evidently intended | confidence | as-written member | corrected member |
|---|---|---|---|---|---|---|
| backend/controllers/authController.js:42-50 | register stores `bcrypt.hash(password)`. The pre-save hook at backend/models/userModel.js:43-47 hashes it again, so the stored field is hash(hash(pw)). | register any valid user, then log in with the same employee id and password: 401 "Invalid credentials" | one hash, so login with the registered password succeeds | high; not executed | AuthController.RegisteredUserCannotLogIn | AuthController.IntendedRegistrationLogsIn |
| backend/models/userModel.js:23-27 | `minlength: 6` is checked on the value handed to the schema, which is already a 60-character hash | register with password "x" and otherwise valid fields: the user is stored | passwords shorter than 6 characters are refused | high; not executed | AuthController.ShortPasswordAccepted | AuthController.IntendedRegistrationRefusesShortPassword |
| backend/middleware/authMiddleware.js:26 | the gate refuses every role except employee and admin | claims with role "manager": 403 "Manager access required"; role "employee": passes | managers and admins pass, everyone else gets 403 | high; not executed | AuthMiddleware.ManagerGateInverted | AuthMiddleware.RequireManagerIntended |
| backend/controllers/leaveControllers.js:255-258 | the `$match` of the aggregation takes the raw `employeeId` query, while `countDocuments` casts it through the trim setter | one record of employee "E1" and the query `?employeeId=%20E1`: total 1, distribution empty | the distribution is filtered like the counts and sums to the total | medium; not executed | LeaveQueries.PaddedQuerySplitsStatistics | LeaveQueries.PaddedQueryCastStatistics |
