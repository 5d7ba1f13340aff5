# Room reservations, modelled in Dafny

A model of the booking engine of a PHP room-reservation application. The model
covers:

- the validator that refuses incomplete, past, back-to-front or overlapping
  bookings (`src/Services/ReservationValidator.php`);
- the `reservations` table and its queries (`src/Models/Reservation.php`);
- the reservation handlers with their role-based permissions
  (`src/Controllers/ReservationController.php`);
- the session, login, registration and user-management handlers
  (`src/Controllers/AuthController.php`);
- the `users` table (`src/Models/User.php`);
- the admin settings screen with its logo uploads
  (`src/Controllers/AdminController.php`).

Modules, one file each:

| file | module | models |
|---|---|---|
| `wrappers.dfy` | `Wrappers` | `Option`, PHP's `null` and `??` |
| `strings.dfy` | `Strings` | `empty()`, string `<`, `trim`, `strtolower`, `strlen` |
| `numbers.dfy` | `Numbers` | `sprintf('%0Nd')`, integer interpolation, the `(int)` cast |
| `calendar.dfy` | `Calendar` | `YYYY-MM-DD` dates and `HH:MM` times, and why string order is time order |
| `hex.dfy` | `Hex` | `bin2hex` of the random id bytes |
| `sorting.dfy` | `Sorting` | SQL `ORDER BY a, b` (a stable sort) and `WHERE` (a filter) |
| `ordered_map.dfy` | `OrderedMap` | PHP arrays with string keys: insertion order, `reset()` |
| `reservations.dfy` | `Reservations` | the `reservations` table as the class `ReservationStore` |
| `validation.dfy` | `Validation` | `timesOverlap`, and `validate` as the class `ReservationValidator` |
| `users.dfy` | `Users` | the `users` table as the class `UserStore` |
| `auth.dfy` | `Auth` | `$_SESSION` as `Session`, `requireAuth`, role checks, `AuthController` |
| `reservation_controller.dfy` | `ReservationHandlers` | `ReservationController` |
| `admin.dfy` | `Admin` | `AdminController`, the `settings` table |

## How the model is built

- **Stores.** Each database table is a class. Its rows are a `seq` in
  insertion order, and every write reassigns it. The schema's constraints
  (`database/setup.php:25-32` and `:47-60`) are the class invariant
  `Valid()`: a unique `id` for reservations; for users, a unique `id` and
  `email`, a role among the three and an AUTOINCREMENT counter.
  `public/install.php:67-89` creates the same tables without the role
  `CHECK` and without the `updated_at` columns. The model follows
  `database/setup.php`.
- **Queries.** A query is a function over the rows. `ORDER BY` is a stable
  sort. The contracts promise only what SQL promises: the right rows,
  sorted by the key.
- **Controllers.** Each controller is a class that holds its stores.
  - A handler takes the explicit inputs the PHP code reads from globals: the
    session, whether the request is a POST, the form fields as a map, the
    clock, and the random bytes.
  - It returns where the browser is sent (an `Outcome`) and the new session.
    A redirect ends a handler, so every `redirect…` becomes a `return`.
- **Errors.** The validator's errors are an ordered map, as in PHP, so
  `getFirstError` (`reset`) is the first error recorded.

The main results:

- `Validation.AcceptedIff` and `Validation.FirstFailure` say exactly when a
  form is accepted and which message the user sees.
- `ReservationHandlers.ReservationController.Create`, `Update` and `Delete`
  keep the booking invariant `NoOverlaps` (no two rows hold the room at
  overlapping times on the same day). The invariant is preserved because
  creation and update check for conflicts first. Each of their outcomes
  holds if and only if a condition on the session gate, the POST flag, the
  permission check, the validator and the stored rows holds. The session
  they return is the one `Auth.SessionAfterGate` describes.
- `Auth.AppendedAccountLogsIn` shows that an account made by `register` or
  `createUser` can log in with the same form values. `Auth.PaddedPasswordLocksOut`
  shows a mismatch: `updateUser` stores a password untrimmed, but `login`
  trims it, so a password with a leading or trailing blank never logs in.
- `Validation.OverlapInMinutes` shows that the string overlap test on
  `HH:MM` texts is the overlap of minute ranges.
  `Calendar.FormatDateOrder` and `Calendar.MonthRangeIsMonth` show the same
  for dates, and that `getByMonth` selects exactly that month.
- `Admin.OnlyValidKeysChange`, `Admin.TextSettingRule`, `Admin.UploadRule`
  and `Admin.StoredPathHasAllowedExtension` pin down what an admin's
  settings update writes.

Behaviour of the code that a reader may not expect, and that the model keeps:

- `validate` runs the date, time and count rules all together. Each failing
  rule records its error; only the required-field check stops early.
- A zero-length interval strictly inside another one does overlap it under
  `start1 < end2 && end1 > start2` (`Validation.PointInsideOverlaps`). Only
  the `start < end` rule keeps such bookings out.
- `getStats` counts every reservation; it is not limited to the caller's
  own rows.
- `updateUser` does not trim the password, while `register`, `createUser`
  and `login` do (`src/Controllers/AuthController.php:196-197` against
  `:46`).
- `create` and `update` of `User` reject a role outside the three. The
  controllers never reach that branch: `createUser` and `updateUser`
  replace or drop such a role first.
- `update` of a reservation leaves `updated_at` unchanged.
- A generated id that is already taken makes the INSERT fail, and the
  handler reports the failure. There is no retry.
- `updateUser` silently drops a role that is not one of the three, and
  still writes the other fields. `createUser` replaces such a role by
  "user".
- `User::update` does not check that a new email is free. The UNIQUE
  constraint makes the statement throw, and nothing in the controller
  catches it; the model's result is `Raised`, and the handler's is
  `ServerError`.

## Model

| member | source | states |
|---|---|---|
| Validation.OverlapSymmetric | src/Services/ReservationValidator.php:100-107 | swapping the two intervals gives the same overlap answer |
| Validation.BackToBackDoNotOverlap | src/Services/ReservationValidator.php:92-107 | an interval ending exactly where the other starts does not overlap it, in either order (the 15:00-16:00 and 10:00-12:00 examples) |
| Validation.PointInsideOverlaps | src/Services/ReservationValidator.php:100-107 | for every point `p` and interval `[s, e]`: the zero-length interval `[p, p]` overlaps `[s, e]` if and only if `s < p < e`; one on either boundary never does |
| Validation.OverlapInMinutes | src/Services/ReservationValidator.php:100-107 | on zero-padded HH:MM texts the string test holds iff the two minute ranges overlap |
| Validation.ClashIsOverlap | src/Models/Reservation.php:176-200 | a row matches the conflict query iff it is on that date, is not the excluded id, and overlaps the interval by timesOverlap |
| Validation.Missing | src/Services/ReservationValidator.php:27-32 | lists exactly the required fields that are `empty()` |
| Validation.RequiredErrorsAreMissing | src/Services/ReservationValidator.php:27-32 | the required-field loop leaves one "required" error per empty field, keyed by that field, in field order |
| Validation.RequiredFieldsDistinct | src/Services/ReservationValidator.php:27 | the six required field names are distinct |
| Validation.MissingIsEmptyIffComplete | src/Services/ReservationValidator.php:27-36 | no field is missing iff all six are present |
| Validation.MissingFieldsOnly | src/Services/ReservationValidator.php:27-36 | an incomplete form gets only "required" errors and no conflict entry: the loop returns before the other rules |
| Validation.FieldRuleKeys | src/Services/ReservationValidator.php:38-52 | the date, time and count rules record exactly the keys of the rules that fail, in that order |
| Validation.RuleErrorsInOrder | src/Services/ReservationValidator.php:38-68 | on a complete form the error keys are the failing rules in order, followed by time_conflict iff no rule failed and the store reports a conflict |
| Validation.PastDateRefused | src/Services/ReservationValidator.php:38-42 | a complete form whose date is before today is refused under reservation_date |
| Validation.EndNotAfterStartRefused | src/Services/ReservationValidator.php:44-47 | a complete form whose end is not after its start is refused under end_time |
| Validation.ZeroLengthRefused | src/Services/ReservationValidator.php:44-47 | a booking with start == end is always refused |
| Validation.ConflictReportedIff | src/Services/ReservationValidator.php:54-68 | a conflict is recorded iff the form is complete, every other rule passes and the store reports a conflict |
| Validation.AcceptedIff | src/Services/ReservationValidator.php:22-71 | no errors iff complete, not past, start < end, num_people > 0 and no conflict |
| Validation.FirstFailure | src/Services/ReservationValidator.php:22-87 | the first error is, in priority order, the first missing field, past date, end not after start, people count, conflict; none when accepted |
| Validation.ReservationValidator.constructor | src/Services/ReservationValidator.php:14-17 | a validator over the given store, with no errors |
| Validation.ReservationValidator.Validate | src/Services/ReservationValidator.php:22-71 | the error map becomes Errors(form, today, the store's conflict answer) and the result is true iff it is empty |
| Validation.ReservationValidator.GetErrors | src/Services/ReservationValidator.php:76-79 | the error map of the last validation |
| Validation.ReservationValidator.GetFirstError | src/Services/ReservationValidator.php:84-87 | null iff there are no errors, otherwise the first error recorded |
| OrderedMap.Get | src/Services/ReservationValidator.php:30 | absent iff the key is not in the array; a found value is stored under that key |
| OrderedMap.Put | src/Services/ReservationValidator.php:30 | after assignment the key holds the value and every other key reads as before |
| OrderedMap.PutKeys | src/Services/ReservationValidator.php:28-64 | assigning to a present key keeps the key order; a new key goes last |
| OrderedMap.PutAbsent | src/Services/ReservationValidator.php:28-32 | assigning a new key appends one entry at the end |
| OrderedMap.First | src/Services/ReservationValidator.php:86 | `reset`: none iff the array is empty, else the value of the first key |
| Reservations.Lookup | src/Models/Reservation.php:90-96 | finds a row with that id, or none iff no row has it |
| Sorting.FirstWhere | src/Models/Reservation.php:90-96 | `fetch()` of a `WHERE` query: the first row of the filtered rows, which satisfies the condition, or none iff no row satisfies it |
| Reservations.LookupUnique | src/Models/Reservation.php:90-96 | with a unique primary key, looking up a row's id finds that row |
| Reservations.NewRow | src/Models/Reservation.php:104-133 | the inserted row carries the id, owner, form fields, '' for a missing email or comment, and the creation time |
| Reservations.Edited | src/Models/Reservation.php:138-157 | the updated row takes the seven editable fields and keeps id, owner, email and timestamps |
| Reservations.Removed | src/Models/Reservation.php:162-166 | the rows left are exactly the rows whose id differs; nothing changes when no row has the id |
| Reservations.RemovedKeepsIdsUnique | src/Models/Reservation.php:162-166 | deleting keeps ids unique and removes exactly one row when the id exists |
| Reservations.RemovedIsWhere | src/Models/Reservation.php:162-166 | deleting is the filter `id != ?` over the rows in order |
| Reservations.ReservationStore.constructor | src/Models/Reservation.php:20-24 | an empty, valid table |
| Reservations.ReservationStore.FindById | src/Models/Reservation.php:90-96 | a row with that id, or null iff none exists |
| Reservations.ReservationStore.GetAll | src/Models/Reservation.php:32-37 | every row, each as often as stored, sorted by date then start time |
| Reservations.ReservationStore.GetByUserId | src/Models/Reservation.php:45-52 | exactly the rows of that user, sorted by date then start time |
| Reservations.ReservationStore.GetByDate | src/Models/Reservation.php:78-85 | exactly the rows of that day, by start time |
| Reservations.ReservationStore.GetByMonth | src/Models/Reservation.php:60-71 | exactly the rows whose date lies between the month's first and last day, sorted by date then start time |
| Reservations.ReservationStore.HasTimeConflict | src/Models/Reservation.php:176-200 | true iff some row clashes: same date, overlapping times, not the excluded id |
| Reservations.ReservationStore.GetStats | src/Models/Reservation.php:207-224 | total, today and upcoming are the numbers of distinct reservations in the table, on today's date, and on today's date or later; today <= upcoming <= total |
| Reservations.TodayCount | src/Models/Reservation.php:213-214 | with unique ids, `COUNT(*) WHERE reservation_date = ?` is the number of distinct reservations on that day |
| Reservations.UpcomingCount | src/Models/Reservation.php:216-217 | with unique ids, `COUNT(*) WHERE reservation_date >= ?` is the number of distinct reservations from that day on |
| Sorting.WhereCount | src/Models/Reservation.php:211-217 | on rows without repeats, the size of a `WHERE` result is the number of distinct rows satisfying the condition |
| Reservations.ReservationStore.Create | src/Models/Reservation.php:104-133 | inserts the new row under bin2hex of the random bytes and returns that id; a taken id inserts nothing and returns null; ids stay unique |
| Reservations.ReservationStore.Update | src/Models/Reservation.php:138-157 | exactly the row with that id takes the form's fields; the statement succeeds |
| Reservations.ReservationStore.Delete | src/Models/Reservation.php:162-166 | the rows become the rows without that id, in order; ids stay unique |
| Reservations.MonthListingIsCalendarMonth | src/Models/Reservation.php:60-71 | a well-formed row is in a month's listing iff its date is in that calendar month |
| Hex.BinToHex | src/Models/Reservation.php:231-234 | two lower-case hex digits per byte |
| Hex.HexToBin | src/Models/Reservation.php:231-234 | decoding hex text gives half as many bytes |
| Hex.HexRoundTrip | src/Models/Reservation.php:231-234 | decoding bin2hex gives back the random bytes |
| Hex.BinToHexInjective | src/Models/Reservation.php:231-234 | distinct random draws give distinct ids |
| Numbers.Padded | src/Models/Reservation.php:63 | `%0Nd` gives exactly N digits |
| Numbers.PaddedLess | src/Models/Reservation.php:60-71 | zero-padded numbers compare as strings as they do as numbers |
| Numbers.PaddedInjective | src/Models/Reservation.php:60-71 | equal padded texts denote equal numbers |
| Numbers.NatToString | src/Controllers/AdminController.php:90 | the decimal text of a number is non-empty, all digits and has no leading zero |
| Numbers.DigitRun | src/Controllers/ReservationController.php:72 | the digit prefix the `(int)` cast reads, and it stops at the first non-digit |
| Numbers.SkipSpace | src/Controllers/ReservationController.php:72 | the `(int)` cast skips leading whitespace and nothing else |
| Numbers.DigitsValueOfNatToString | src/Controllers/ReservationController.php:72 | the digits of a number denote that number |
| Numbers.DigitRunOfDigits | src/Controllers/ReservationController.php:72 | a digit string is read whole |
| Numbers.IntCastRoundTrip | src/Controllers/ReservationController.php:72 | `(int)` of a number's decimal text is that number |
| Calendar.DaysInMonth | src/Models/Reservation.php:64 | the `t` date format: 28 to 31 days, 29 iff February of a leap year |
| Calendar.FormatDate | src/Models/Reservation.php:63 | `%04d-%02d-%02d` is ten characters with dashes at 4 and 7 |
| Calendar.FormatDateOrder | src/Models/Reservation.php:60-71 | string order on formatted dates is chronological order, and equal texts are equal dates |
| Calendar.MonthRangeIsMonth | src/Models/Reservation.php:60-71 | a date is BETWEEN a month's first and last day iff it is in that month |
| Calendar.FormatTime | src/Services/ReservationValidator.php:94-98 | `HH:MM` is five characters with ':' at 2 |
| Calendar.FormatTimeOrder | src/Services/ReservationValidator.php:44-47 | string order on `HH:MM` texts is the order of minutes since midnight |
| Strings.LessIrreflexive | src/Services/ReservationValidator.php:40-45 | no string is below itself |
| Strings.LessTransitive | src/Services/ReservationValidator.php:40-45 | string order is transitive |
| Strings.LessTotal | src/Services/ReservationValidator.php:40-45 | any two distinct strings are ordered |
| Strings.LessAsymmetric | src/Services/ReservationValidator.php:40-45 | a < b excludes b < a |
| Strings.NotLessIsGreaterOrEqual | src/Services/ReservationValidator.php:45 | `a >= b` is exactly `!(a < b)` |
| Strings.LessConcat | src/Models/Reservation.php:63 | fixed-width fields compare field by field |
| Strings.TrimStartShape | src/Controllers/AuthController.php:45-46 | ltrim leaves a suffix that does not start with a trim character, and removes only trim characters |
| Strings.TrimEndShape | src/Controllers/AuthController.php:45-46 | rtrim leaves a prefix that does not end with a trim character, and removes only trim characters |
| Strings.TrimShape | src/Controllers/AuthController.php:45-46 | trim leaves a slice with no trim character at either end, and removes only trim characters |
| Strings.TrimIdempotent | src/Controllers/AuthController.php:45-46 | trimming twice is trimming once |
| Strings.LowerChar | src/Controllers/AdminController.php:79 | strtolower maps A-Z to a-z and leaves every other character |
| Strings.ToLower | src/Controllers/AdminController.php:79 | strtolower keeps the length and lowers each character |
| Strings.ByteLength | src/Controllers/AuthController.php:101 | strlen counts UTF-8 bytes: between 1 and 4 per character, one per ASCII character |
| Sorting.KeyLeTotal | src/Models/Reservation.php:34 | any two sort keys are ordered |
| Sorting.KeyLeTransitive | src/Models/Reservation.php:34 | the sort key order is transitive |
| Sorting.Insert | src/Models/Reservation.php:34 | inserting into a sorted listing keeps it sorted and adds exactly that row |
| Sorting.SortBy | src/Models/Reservation.php:34 | ORDER BY returns a sorted permutation of the rows |
| Sorting.Where | src/Models/Reservation.php:47-48 | WHERE keeps exactly the rows satisfying the condition |
| Sorting.WhereMonotone | src/Models/Reservation.php:213-219 | a weaker condition counts at least as many rows |
| Sorting.WhereMultiset | src/Models/Reservation.php:47-48 | WHERE keeps every matching row as often as it is stored, and no other |
| Sorting.WhereKeepsPairwise | src/Models/Reservation.php:162-166 | filtering keeps a relation that held between every earlier and every later row |
| Users.Changed | src/Models/User.php:81-111 | the updated user takes the supplied email, the digest of the supplied password and the supplied role, and keeps the rest |
| Users.CountOf | src/Models/User.php:157-165 | a role's count is at most the number of users |
| Users.CountsAddUp | src/Models/User.php:157-165 | under the role CHECK, the three role counts add up to the number of users |
| Users.CountOfAbsent | src/Models/User.php:157-165 | a role's count is positive iff some user holds it |
| Users.Summaries | src/Models/User.php:146-150 | one summary per user, without the password digest |
| Users.UserStore.constructor | src/Models/User.php:20-24 | an empty, valid table whose next id is 1 |
| Users.UserStore.FindByEmail | src/Models/User.php:32-38 | a user with that email, or null iff none exists |
| Users.UserStore.FindById | src/Models/User.php:43-49 | a user with that id, or null iff none exists |
| Users.UserStore.Create | src/Models/User.php:57-73 | null iff the email is taken or the role is invalid; otherwise appends the user with the digest of the password under the next id and returns it |
| Users.RewrittenConsistent | src/Models/User.php:107-110 | an UPDATE with a free email and a role among the three keeps ids and emails unique and every role valid |
| Users.UserStore.Update | src/Models/User.php:81-111 | nothing supplied: false; throws iff something is supplied, the user exists, and another user has the email or the role is invalid; otherwise only that user changes, as Changed says |
| Users.UserStore.Delete | src/Models/User.php:116-120 | the users become those without that id, in order; the constraints still hold |
| Users.UserStore.VerifyCredentials | src/Models/User.php:128-138 | the user with that email iff password_verify accepts the password against its digest, else null |
| Users.UserStore.GetAll | src/Models/User.php:146-150 | every user's summary, sorted by role then email |
| Users.UserStore.CountByRole | src/Models/User.php:157-165 | maps exactly the roles some user holds to the number of users holding them |
| Auth.CurrentRole | src/Controllers/AuthController.php:293-296 | the session's role, "user" when there is none |
| Auth.RolesExclusive | src/Controllers/AuthController.php:253-272 | at most one role check holds, and a valid stored role satisfies exactly one |
| Auth.ModifyIffDelete | src/Controllers/AuthController.php:313-332 | modify and delete permissions coincide |
| Auth.PermissionByRole | src/Controllers/AuthController.php:302-332 | admins and managers may touch every reservation; anyone else only those with their own user id |
| Auth.RequireAuth | src/Controllers/AuthController.php:340-359 | to login iff unauthenticated; expired iff idle for more than 3600 s; otherwise admitted with last_activity renewed |
| Auth.RequireAuthRenews | src/Controllers/AuthController.php:340-359 | an admitted session stays valid for exactly another SESSION_LIFETIME seconds |
| Auth.Logout | src/Controllers/AuthController.php:130-134 | the destroyed session passes no role check and every later gate sends it to login |
| Auth.Posted | src/Controllers/AuthController.php:45-46 | `$_POST[$k] ?? ''` |
| Auth.RegistrationError | src/Controllers/AuthController.php:86-109 | no error iff both fields are present, the email is valid, the password has at least 6 bytes and matches its confirmation; a missing field is reported first |
| Auth.RequestedRole | src/Controllers/AuthController.php:151-161 | always a valid role: the posted one if valid, otherwise "user" |
| Auth.SubmittedChanges | src/Controllers/AuthController.php:189-202 | email (trimmed), password and role are included iff posted non-empty, the role only when valid |
| Auth.AuthController.constructor | src/Controllers/AuthController.php:25-28 | the controller over the given user table |
| Auth.AuthController.Login | src/Controllers/AuthController.php:36-71 | not a POST, missing fields and bad credentials each iff their condition; succeeds iff a POST carries a non-empty trimmed email and password matching a user; then the session holds that user and the time; otherwise it is unchanged |
| Auth.AuthController.Register | src/Controllers/AuthController.php:79-125 | not a POST iff it is not one; each form check's error in order; email taken iff the checks pass and the email is in use; success iff all pass and the email is free, then exactly one "user" account with the digest of the trimmed password is appended; otherwise nothing is written |
| Auth.AuthController.CreateUser | src/Controllers/AuthController.php:141-175 | not admin iff the session is not an admin's; missing fields and email taken each iff their condition; success iff the fields are present and the email free, appending the user with the digest of the trimmed password and the requested or default role; otherwise nothing is written |
| Auth.AuthController.UpdateUser | src/Controllers/AuthController.php:182-209 | admins only, and an admin is never refused; fails iff nothing non-empty was submitted; a server error iff the user exists and another user has the submitted email; success otherwise, also for a missing id; success changes only that user, as Changed says, with the untrimmed password's digest; a role becomes only a posted role |
| Auth.AuthController.DeleteUser | src/Controllers/AuthController.php:217-235 | admins only; refuses the admin's own id; otherwise removes that user, and the acting admin always survives |
| Auth.UniqueEmail | src/Models/User.php:32-38 | with unique emails, the user found by email is the only one with it |
| Auth.AppendedAccountLogsIn | src/Controllers/AuthController.php:44-55 | when `verify` accepts every password against its own digest, the account register or createUser appends satisfies login's credential check for the same trimmed email and password |
| Auth.PaddedPasswordLocksOut | src/Controllers/AuthController.php:196-197 | when `verify` accepts a password only against its own digest, a password stored untrimmed with a leading or trailing blank fails login's check on the trimmed text |
| Auth.SessionAfterGate | src/Controllers/AuthController.php:340-359 | the session requireAuth leaves: renewed with the current time when admitted, destroyed when expired, unchanged when not logged in |
| ReservationHandlers.FormDraft | src/Controllers/ReservationController.php:66-77 | area, responsible and comment trimmed, num_people cast, date and times as posted, '' when missing |
| ReservationHandlers.NumPeopleRoundTrip | src/Controllers/ReservationController.php:72 | a count posted as its decimal digits reaches the validator as that count |
| ReservationHandlers.OwnRowNeverConflicts | src/Controllers/ReservationController.php:131-132 | on update a row never conflicts with itself, because its non-empty id is excluded |
| ReservationHandlers.AppendKeepsNoOverlaps | src/Controllers/ReservationController.php:79-93 | appending a row that clashes with nothing keeps the table overlap-free |
| ReservationHandlers.EditKeepsNoOverlaps | src/Controllers/ReservationController.php:131-143 | editing a row to times that clash with no other row keeps the table overlap-free |
| ReservationHandlers.RemoveKeepsNoOverlaps | src/Controllers/ReservationController.php:150-172 | deleting keeps the table overlap-free |
| ReservationHandlers.ReservationController.constructor | src/Controllers/ReservationController.php:25-29 | the controller and its validator share one store |
| ReservationHandlers.ReservationController.Index | src/Controllers/ReservationController.php:37-48 | succeeds iff the gate admits; then admins and managers get every row, anyone else exactly their own, sorted by date then time; the session afterwards is SessionAfterGate's |
| ReservationHandlers.ReservationController.Create | src/Controllers/ReservationController.php:56-94 | each outcome iff its gate, POST and validation condition; a refusal reports the first error; success appends the new row; the table stays overlap-free; the session afterwards is SessionAfterGate's |
| ReservationHandlers.ReservationController.Update | src/Controllers/ReservationController.php:102-143 | not found, forbidden and refused (own id excluded) each iff their condition and write nothing; success iff the row exists, may be modified and the form is accepted, and then only that row is edited; the table stays overlap-free; the session afterwards is SessionAfterGate's |
| ReservationHandlers.ReservationController.Delete | src/Controllers/ReservationController.php:150-172 | not found and forbidden iff their condition and write nothing; success iff the row exists and may be deleted, and then exactly that row is removed; the table stays overlap-free; the session afterwards is SessionAfterGate's |
| ReservationHandlers.ReservationController.ExportExcel | src/Controllers/ReservationController.php:180-191 | rows are returned iff admitted as admin or manager, then every row sorted by date then time; the session afterwards is SessionAfterGate's |
| Admin.LastIndexOf | src/Controllers/AdminController.php:79 | the last position of the character, with no later occurrence, or none iff it does not occur |
| Admin.LastIndexOfAppend | src/Controllers/AdminController.php:79 | appending text without the character keeps its last position |
| Admin.Basename | src/Controllers/AdminController.php:79 | the suffix after the last '/', with no '/' in it |
| Admin.RawExtension | src/Controllers/AdminController.php:79 | PATHINFO_EXTENSION contains neither '.' nor '/' |
| Admin.BasenameOfName | src/Controllers/AdminController.php:79 | appending "." and a plain extension extends the base name |
| Admin.LastDotBeforeExtension | src/Controllers/AdminController.php:79 | the last '.' of `base.ext` is the separator |
| Admin.ExtensionOfName | src/Controllers/AdminController.php:79 | the extension of `stem.ext` is ext |
| Admin.UploadedPathExtension | src/Controllers/AdminController.php:90-95 | the stored path `/uploads/<key>_<time>.<ext>` has extension ext |
| Admin.ApplyTextElsewhere | src/Controllers/AdminController.php:49-56 | the text loop leaves keys outside its list as they were |
| Admin.ApplyTextAt | src/Controllers/AdminController.php:52-56 | a listed key takes the trimmed posted value iff one was posted non-empty, else keeps its value |
| Admin.ApplyUploadsElsewhere | src/Controllers/AdminController.php:59-63 | the upload calls leave settings no slot writes as they were |
| Admin.OnlyValidKeysChange | src/Controllers/AdminController.php:49-63 | a key outside the whitelist is never changed |
| Admin.TextSettingRule | src/Controllers/AdminController.php:52-56 | app_name and primary_color take the trimmed posted value iff posted non-empty, else stay as they were |
| Admin.BlankTextIsStoredEmpty | src/Controllers/AdminController.php:53-54 | a posted "   " passes `empty()` and is stored as '' |
| Admin.ApplyUploadsAt | src/Controllers/AdminController.php:59-63 | a slot's setting becomes its stored path iff the upload is accepted, else it keeps its value |
| Admin.UploadRule | src/Controllers/AdminController.php:59-99 | after update, an upload slot's setting is the stored path iff the file arrived, has an allowed extension and was moved |
| Admin.LoweredExtension | src/Controllers/AdminController.php:79 | a lower-cased extension has no '.' or '/' and stays the same when lowered again |
| Admin.StoredPathHasAllowedExtension | src/Controllers/AdminController.php:79-95 | every stored upload path ends in an allowed extension |
| Admin.SettingsTable.constructor | src/Controllers/AdminController.php:19-20 | the table holds the given key/value pairs |
| Admin.SettingsTable.SaveSetting | src/Controllers/AdminController.php:116-120 | INSERT OR REPLACE: the key holds the value and no other key changes |
| Admin.AdminController.constructor | src/Controllers/AdminController.php:9-21 | the controller over the given settings table |
| Admin.AdminController.HandleUpload | src/Controllers/AdminController.php:75-99 | writes the stored path under the key iff the upload arrived, has an allowed extension and was moved |
| Admin.AdminController.Update | src/Controllers/AdminController.php:37-66 | login, expiry, not admin, not a POST and a bad token each iff their condition; saves iff an admin with a live session posts with a valid token, and then the settings become AfterUpdate; otherwise nothing changes; the session afterwards is SessionAfterGate's |

## Left out

- HTTP: the HTML templates, routing, `header()` redirects and their
  messages. A redirect is an `Outcome` value.
- `index()` of `AdminController` (rendering) and `getAllSettings`
  (`fetchAll` of the table, which is the table itself).
- The CSV body of `exportExcel`: the BOM, the header line, `fputcsv` quoting
  and the `d/m/Y` date of each row. The model returns the rows it writes.
- External calls, given as parameters:
  - `password_hash` is a `hash` function; `password_verify` is a
    `verify` function. Bcrypt's salt is not modelled: `hash` gives one
    digest per password.
  - `filter_var(..., FILTER_VALIDATE_EMAIL)` is a `validEmail` function.
  - `random_bytes(8)` is an input of 8 bytes.
  - `validateCsrfToken()` is a boolean.
  - `move_uploaded_file` is the `moved` flag of the upload.
  - `time()` and `date('Y-m-d')` are the `Clock` record.
- Side effects the model does not represent: `session_regenerate_id`,
  `error_log`, `mkdir` of the upload directory and the `updated_at` column
  of `settings`.
- Concurrency: the check for conflicts and the insert that follows it are
  two statements. Two requests running at once can both pass the check. The
  model runs one request at a time, so `NoOverlaps` is preserved only under
  that assumption.
- PHP's numeric-string comparison. When both operands of `<` are numeric
  strings, PHP compares them as numbers; the model always compares them
  as text. This matters only for malformed dates or times.
- Integer width: the model's integers are unbounded. A `(int)` cast of more
  digits than a 64-bit integer holds is not clamped, and exponent or
  fractional notation is not parsed.
- Reservations.ReservationStore.GetByMonth: requires a month in 1..12 and a
  year in 1..9999. PHP would normalise other values through `strtotime`.
- Admin.Basename: `basename` also drops trailing slashes and handles
  locale-dependent multi-byte input. The model takes the text after the
  last '/'.
- `Strings.Less` compares code points. This is the order of UTF-8 bytes,
  which is what PHP and SQLite compare.
- `ORDER BY` leaves the order of equal keys open. The model keeps ties in
  table order, and its contracts promise only sortedness and the rows.
