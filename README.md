# Task list with GitHub sign-in: a Dafny model of its services

This project models the server-side core of a small personal task list. The
app stores tasks with a due date, shows the tasks due today or earlier, and
signs users in with GitHub. The model has seven modules.

- `Wrappers` holds the `Option` and `Result` types the other modules return.
- `Table` is the in-memory picture of a SQL table. A table is a sequence of
  rows in rowid order. The query-builder calls the services make are
  functions over that sequence: `Where`, `Head`, `UpdateWhere`, `Updated`,
  and appending a row. An id counter that never hands out an id twice keeps
  ids ascending.
- `Dates` covers calendar dates written as `YYYY-MM-DD` text and the
  JavaScript `Date` steps the task service applies to them: reading a date,
  `setDate(getDate() + days)`, `toISOString()` and `split('T')[0]`. Parsing
  and formatting are proved to be inverses. Text order on dates is proved to
  be calendar order. Moving a date through a `Date` instant is proved to be
  plain day-number arithmetic, and day arithmetic is proved additive.
- `Tasks` holds `TasksService`. It is a class over the tasks table with the
  operations today's list, create, update, complete, uncomplete, delete and
  defer.
- `Auth` holds `AuthService`. It is a class over the users and sessions
  tables with the operations create a session, resolve a session to its user
  and find-or-create a user by provider id.
- `GithubUsers` holds the older `UsersService`, which does get-or-create
  keyed by GitHub account id. In the source it works on the same users table
  as `AuthService`; the model gives it a table of its own (see Left out).
- `AuthMiddleware` derives the request's `{user, isAuthenticated}` context
  from the session cookie.

Some inputs are parameters of the operations that read them:

- the clock, as `now` in milliseconds since 1970-01-01T00:00:00Z;
- the freshly generated session id;
- the OAuth identity.

Each state-changing operation is a method. Its postcondition gives the new
table as a function of the old one. The properties the app depends on are
proved as lemmas about those functions:

- a session round trip;
- a repeat sign-in returns the same user;
- today's list as a calendar comparison;
- a deferred task leaving today's list.

## Model

| member | source | states |
|---|---|---|
| Table.Head | src/services/auth.ts:32-36 | `const [x] = rows` binds nothing exactly when the result is empty, and otherwise binds the first row |
| Table.Where | src/resources/tasks/service.ts:26 | a `select ... where` result holds exactly the table rows that satisfy the condition, and is never longer than the table |
| Table.UpdateWhere | src/resources/tasks/service.ts:41 | an `update ... where` rewrites exactly the matching rows, keeps every other row and keeps the row count |
| Table.Updated | src/resources/tasks/service.ts:41 | `returning()` yields one row per matched row, the change applied to it, in table order |
| Table.UpdatedIsWhereOfUpdate | src/resources/tasks/service.ts:41 | when the change keeps rows matching, what `returning()` yields is exactly what a query for the matching rows reads from the updated table |
| Table.HeadUpdatedIsInTable | src/resources/tasks/service.ts:46-47 | the first row `returning()` yields is a row of the updated table that still matches the condition |
| Table.WhereAppend | src/resources/tasks/service.ts:36 | after an insert, a query returns its old answer plus the new row if the new row matches |
| Table.WhereUpdateWhere | src/services/auth.ts:59-67 | an update that cannot change whether a row matches a query commutes with that query |
| Table.HeadWhereUnique | src/services/auth.ts:41-45 | on a table with unique ascending ids, a lookup by id finds the row with that id wherever it sits |
| Table.AscendingWhere | src/resources/tasks/service.ts:56 | deleting rows keeps ids ascending |
| Table.AscendingUpdateWhere | src/resources/tasks/service.ts:41 | an update that keeps ids keeps ids ascending and below the counter |
| Dates.FromEpochMs | src/resources/tasks/service.ts:70 | the time value of `new Date()`, split into its UTC day and the milliseconds into that day: the milliseconds lie in one day's range, and (day − epoch day) × ms per day + ms of day is the time value again |
| Dates.FormatDate | src/resources/tasks/service.ts:62 | the date half of `toISOString()`: the 10-character `YYYY-MM-DD` text of a valid date |
| Dates.FormatTime | src/resources/tasks/service.ts:62 | the time half of `toISOString()`: 13 characters `HH:mm:ss.sssZ` with the separators in place |
| Dates.TimeFields | src/resources/tasks/service.ts:62 | the hour, minute, second and millisecond fields of a time of day are in range (hours < 24, minutes and seconds < 60) and add back up to it |
| Dates.FormatTimeReadsBack | src/resources/tasks/service.ts:62 | the four fields of `HH:mm:ss.sss` are digits, hours < 24, minutes and seconds < 60, and read back as h·3600000 + m·60000 + s·1000 + ms they give the time of day formatted |
| Dates.AddDays | src/resources/tasks/service.ts:59-64 | the day-number reference for `defer`: an unreadable due date is `InvalidDate`, and a moved date is 10 characters of full-date text |
| Dates.FromDayNumber | src/resources/tasks/service.ts:61 | every day number in the four-digit range is the day number of exactly one valid date |
| Dates.DayNumberOrder | src/resources/tasks/service.ts:26 | day numbers compare exactly as dates compare on the calendar, and are equal only for the same date |
| Dates.FromDayNumberOfDayNumber | src/resources/tasks/service.ts:61 | converting a date to its day number and back gives the same date |
| Dates.ParseDate | src/resources/tasks/service.ts:60 | reading a stored due date: a `YYYY-MM-DD` string naming a real calendar day gives that date, and anything else gives nothing |
| Dates.MidnightOf | src/resources/tasks/service.ts:60 | `new Date("YYYY-MM-DD")` is midnight UTC of that date's day |
| Dates.PlusDays | src/resources/tasks/service.ts:61 | `setDate(getDate() + days)` moves the instant by exactly `days` days and keeps its time of day |
| Dates.ToIsoString | src/resources/tasks/service.ts:62 | `toISOString()` writes 24 characters `YYYY-MM-DDTHH:mm:ss.sssZ`, with the `T` at position 10 |
| Dates.DatePart | src/resources/tasks/service.ts:62 | `split('T')[0]` is the longest prefix of the text that contains no `T` |
| Dates.DateToday | src/resources/tasks/service.ts:70 | `dateToday()` is the full-date text of the UTC day the clock reading falls on |
| Dates.DeferredDate | src/resources/tasks/service.ts:60-62 | the due date `defer` writes: an unreadable due date gives `InvalidDate`, a readable one gives a date exactly when the moved day stays in the four-digit years, and the result never contains a time part |
| Dates.LexLe | src/resources/tasks/service.ts:26 | the text comparison SQLite's `<=` makes on `dueDate`: a prefix of a string is at most the string |
| Dates.LexLeTotal | src/resources/tasks/service.ts:26 | text order is total: of any two strings one is at most the other |
| Dates.ParseFormatDate | src/resources/tasks/service.ts:60-62 | every valid date is read back from its own `YYYY-MM-DD` text |
| Dates.FormatParseDate | src/resources/tasks/service.ts:60-62 | writing out a parsed full-date reproduces the original text |
| Dates.FullDateTextOrder | src/resources/tasks/service.ts:26 | for well-formed full-dates, the text comparison `lte` makes agrees with the calendar order of the days |
| Dates.IsoDatePart | src/resources/tasks/service.ts:62 | `toISOString().split('T')[0]` is the full-date of the instant's UTC day |
| Dates.DateTodayIsUtcDay | src/resources/tasks/service.ts:70 | `dateToday()` is a well-formed full-date naming the UTC day of the clock reading |
| Dates.DeferredDateIsAddDays | src/resources/tasks/service.ts:60-62 | moving a due date through a `Date` instant and `setDate` gives the same result as adding the days to its day number, errors included |
| Dates.AddDaysIsFullDate | src/resources/tasks/service.ts:60-62 | a moved due date is a well-formed full-date exactly `days` days after the old one |
| Dates.AddZeroDays | src/resources/tasks/service.ts:59-64 | deferring by zero days leaves a well-formed due date unchanged |
| Dates.AddDaysAdditive | src/resources/tasks/service.ts:59-64 | deferring by `a` days and then by `b` days is deferring by `a + b` days |
| Dates.AddDaysMovesLater | src/resources/tasks/service.ts:59-64 | a deferral by a positive number of days puts the due date strictly later in text order |
| Tasks.DueBy | src/resources/tasks/service.ts:26 | the condition `lte(tasksTable.dueDate, today)` as text order on the stored due date |
| Tasks.HasId | src/resources/tasks/service.ts:41 | the condition `eq(tasksTable.id, task.id)` of update, complete, uncomplete and defer |
| Tasks.HasOtherId | src/resources/tasks/service.ts:56 | the rows a `delete ... where eq(tasksTable.id, task.id)` keeps |
| Tasks.SetAll | src/resources/tasks/service.ts:41 | `.set(task)`: every column of the matched row becomes the task's |
| Tasks.SetCompleted | src/resources/tasks/service.ts:46-51 | `.set({ completed })`: only the `completed` column changes |
| Tasks.SetDueDate | src/resources/tasks/service.ts:62 | `.set({ dueDate })`: only the `dueDate` column changes |
| Tasks.TasksService.GetTodaysTasks | src/resources/tasks/service.ts:24-27 | returns exactly the rows whose due date is not after today's date in text order, with no filter on completion or owner; reads only |
| Tasks.TasksService.Create | src/resources/tasks/service.ts:29-38 | appends exactly one open task due today with the next id, returns it, and a lookup by its id then finds it |
| Tasks.TasksService.Update | src/resources/tasks/service.ts:40-43 | the row with the task's id becomes the task; the result is the task if such a row existed and nothing otherwise, and a returned row is in the table with that id |
| Tasks.TasksService.Complete | src/resources/tasks/service.ts:45-48 | sets `completed` on the row with the task's id and returns that row after the change: a row of the table with that id and `completed` set |
| Tasks.TasksService.Uncomplete | src/resources/tasks/service.ts:50-53 | clears `completed` on the row with the task's id and returns that row after the change: a row of the table with that id and `completed` cleared |
| Tasks.TasksService.Delete | src/resources/tasks/service.ts:55-57 | removes the rows with the task's id and keeps the others in order |
| Tasks.TasksService.Defer | src/resources/tasks/service.ts:59-64 | sets the due date of the row with the task's id to the passed task's own due date plus `days`; when that date cannot be computed nothing is written and the error is returned; a returned row is in the table with that id and carries the moved date |
| Tasks.CreatedRowIsFound | src/resources/tasks/service.ts:36-37 | a row inserted with a fresh id is what a lookup by that id finds, and ids stay ascending |
| Tasks.UpdateReturns | src/resources/tasks/service.ts:41-42 | `update` returns the task exactly when some row had its id |
| Tasks.UpdateMissingIdChangesNothing | src/resources/tasks/service.ts:41-63 | update, complete, uncomplete and defer with an id no row has change nothing and return nothing |
| Tasks.TodaysTasksByCalendar | src/resources/tasks/service.ts:24-27 | when every stored due date is well formed, today's list holds exactly the rows whose due day is on or before the UTC day of `now` |
| Tasks.DueByCalendar | src/resources/tasks/service.ts:26 | one row passes the `lte` filter exactly when its due day is on or before today |
| Tasks.CompleteTouchesOnlyCompleted | src/resources/tasks/service.ts:46 | `complete` and `uncomplete` change only the `completed` column, and only on the row with that id |
| Tasks.CompleteIdempotent | src/resources/tasks/service.ts:45-48 | completing twice leaves the same table as completing once |
| Tasks.UncompleteUndoesComplete | src/resources/tasks/service.ts:45-53 | uncompleting after completing restores a table whose row with that id was open |
| Tasks.DeleteRemovesOne | src/resources/tasks/service.ts:55-57 | delete removes exactly one row when the id is present and nothing when it is missing |
| Tasks.CreatedTaskIsDueToday | src/resources/tasks/service.ts:29-38 | a task created today appears in today's list |
| Tasks.DeferredTaskLeavesToday | src/resources/tasks/service.ts:59-64 | a task due today and deferred by one day leaves today's list, and the "today" query lists it at exactly the clock readings whose UTC day is the next day or later |
| Auth.SessionHasId | src/services/auth.ts:35 | the condition `eq(sessionsTable.id, sessionId)` |
| Auth.UserHasId | src/services/auth.ts:43 | the condition `eq(usersTable.id, ...)` of the session lookup and of the token refresh |
| Auth.HasProviderId | src/services/auth.ts:55 | the condition `eq(usersTable.providerId, oauthUser.providerId)`, which ignores the provider name |
| Auth.RefreshTokens | src/services/auth.ts:59-67 | a returning sign-in sets the access token and the update time, sets the refresh token only when the identity carries one, and leaves every other column as it was |
| Auth.NewUser | src/services/auth.ts:73-88 | a first sign-in's row carries the email, name, avatar, provider, provider id and both tokens of the identity, with the next id and no update time |
| Auth.SessionExpiry | src/services/auth.ts:19-25 | the stored expiry is a 24-character ISO timestamp |
| Auth.UserBySession | src/services/auth.ts:31-47 | a session resolves only to a row of the users table |
| Auth.UnknownSessionIsNobody | src/services/auth.ts:31-38 | an id that no session carries resolves to nobody |
| Auth.UserBySessionFindsOwner | src/services/auth.ts:31-47 | a session resolves to the user whose id it names, when that user exists |
| Auth.SessionRoundTrip | src/services/auth.ts:17-47 | after a session with a new id is added, that id resolves to the user with the session's user id |
| Auth.OtherSessionsUnchanged | src/services/auth.ts:23-27 | adding a session leaves every other session id resolving as before |
| Auth.FirstSessionIgnoresExpiry | src/services/auth.ts:32-36 | the first session with a given id names the same user in two tables that differ only in expiry times |
| Auth.LookupIgnoresExpiry | src/services/auth.ts:31-47 | resolving a session never depends on `expiresAt` or the clock |
| Auth.SessionExpiresInThirtyDays | src/services/auth.ts:19-25 | a session expires on the UTC day thirty days after its creation, at the same time of day |
| Auth.AuthService.CreateUserSession | src/services/auth.ts:17-29 | appends exactly one session with the given id, the user id and the expiry thirty days on, and returns the id; that id then resolves to the user and every other id resolves as before |
| Auth.AuthService.GetUserBySession | src/services/auth.ts:31-47 | returns the user the session id resolves to, or nothing when no session has that id; reads only |
| Auth.AuthService.FindOrCreateUser | src/services/auth.ts:49-89 | a known provider id gets its tokens and update time refreshed and the row as read before the update returned, with no insert; an unknown one gets exactly one new row built from the identity; either way a later lookup by provider id finds the returned id |
| Auth.AuthService.SignInTwice | src/services/auth.ts:51-56 | two sign-ins with the same provider id, whatever the provider, give the same user id and add at most one row |
| Auth.RefreshChangesOnlyTokens | src/services/auth.ts:59-67 | a returning sign-in changes only the access token, refresh token and update time, and only on the matched row |
| GithubUsers.HasGithubId | src/resources/users/service.ts:22 | the condition `eq(usersTable.githubId, githubId)` |
| GithubUsers.LookupGithubId | src/resources/users/service.ts:21-24 | a lookup that finds a row finds one with that GitHub id |
| GithubUsers.LookupEmptyIffAbsent | src/resources/users/service.ts:21-24 | the lookup is empty exactly when no row has that GitHub id |
| GithubUsers.LookupStable | src/resources/users/service.ts:26-29 | inserting a row never changes a lookup that already succeeds |
| GithubUsers.LookupFindsAppended | src/resources/users/service.ts:26-29 | a row inserted for an unknown GitHub id is what the lookup then finds |
| GithubUsers.UsersService.FindUserByGithubId | src/resources/users/service.ts:21-24 | returns the first row with that GitHub id, and null exactly when no row has it; reads only |
| GithubUsers.UsersService.CreateUser | src/resources/users/service.ts:26-29 | appends exactly one row with the next id and the GitHub id, and returns it |
| GithubUsers.UsersService.GetOrCreateUser | src/resources/users/service.ts:13-19 | an existing row is returned with the table untouched; otherwise exactly one row is inserted and returned; afterwards the lookup finds the returned row |
| GithubUsers.UsersService.GetOrCreateTwice | src/resources/users/service.ts:13-29 | a repeated call returns the same row and adds nothing beyond the first call's insert |
| AuthMiddleware.HasSessionCookie | src/middleware/auth.ts:16 | the truthiness test on `cookie.session`: present and not the empty string |
| AuthMiddleware.DeriveAuthContext | src/middleware/auth.ts:14-22 | a usable cookie gives the user the session lookup resolves it to; `isAuthenticated` is true exactly when a user was found, and a user is found only for a usable cookie and only from the users table; computed from the tables without writing them |
| AuthMiddleware.NoCookieIsAnonymous | src/middleware/auth.ts:15-16 | an absent or empty cookie gives no user and no authentication, whatever the tables hold |
| AuthMiddleware.UnknownCookieIsAnonymous | src/middleware/auth.ts:16-21 | a cookie naming no session gives no user and no authentication |
| AuthMiddleware.SignedInAfterSessionCreated | src/middleware/auth.ts:14-22 | once a session with a new id is recorded for an existing user, a request carrying that id is authenticated as that user |

## Left out

- Route wiring, cookies, redirects, JWT handling and the OAuth plugin are not part of this model. They live in `src/main.ts`, `src/main.tsx`, `src/routes.ts`, `src/routes.tsx`, `src/routes/auth.ts` and the `routes.tsx` files. They are framework plumbing around the services, and the services are modelled on whatever arguments they receive.
- `src/services/github.ts` is not part of this model. It only makes network calls, and its result enters as the `OAuthUser` parameter.
- `src/middleware/requireAuth.ts` is not part of this model. It is a framework redirect guard.
- Database connection setup and the UI components are not part of this model. `src/db/schema.ts` lists columns the services do not use and lacks the ones they do, so the row shapes follow the services' queries.
- Column defaults such as `createdAt` are left out. The model does not see them.
- The clock, `createId()` and the database are not called. The clock enters as the `now` parameter. The new session id enters as the `sessionId` parameter, which must be fresh, standing in for the id generator's collision resistance.
- Timezones and daylight saving are left out. `getDate`/`setDate` run in the host's local time, and the model reads them in UTC. On a host whose offset changes within the deferral window, the source can land on a neighbouring day.
- JavaScript's lenient date parsing is left out. A stored due date that is not a valid `YYYY-MM-DD` is an `InvalidDate` error rather than whatever else `new Date` might accept.
- Tasks.TasksService.Defer: a moved date outside the years 0000 to 9999 is modelled as the error `YearOutOfRange`. The source writes an extended-year string there, or throws beyond the `Date` range.
- Tasks.TasksService.Defer: `days` is an integer. A fractional `days` is not modelled.
- Dates.ClockInRange: operations that read the clock require its UTC date to have a four-digit year. Auth.SessionClockInRange requires the same thirty days later.
- Dates.DeferredDate: additivity and the zero-day identity are proved for `Dates.AddDays`, and `Dates.DeferredDateIsAddDays` carries them over to `DeferredDate`.
- Query results are assumed to come back in rowid order. SQL does not promise an order without `ORDER BY`. A different order could change which row `const [x] = ...` picks only where several rows match.
- `AuthService` and `UsersService` each get a users table of their own, with their own row shape and id counter. In the source both write the one users table. So the model does not capture that a row one service inserts is visible to the other, or that the two share one AUTOINCREMENT counter.
- Tasks.TasksService.Create: the tasks table is taken to hand out ids from an AUTOINCREMENT counter (`nextId`). No schema for that table is given. With a plain `INTEGER PRIMARY KEY` SQLite picks the largest rowid plus one, so it would reuse the id of a deleted last task, which `old(nextId)` does not capture.
- Concurrency between requests, and database failures, are left out.
- Expired sessions are modelled as the code treats them: `getUserBySession` resolves a session whatever its `expiresAt`, and the thirty-day cookie lifetime is the only expiry.
- Today's list is modelled as the code computes it: every task due on or before today, whether completed or not, with no per-user filter. A deferral counts from the task's own due date, not from today.
