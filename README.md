# Lisa's Beauty Corner — booking and auth core in Dafny

Lisa's Beauty Corner is a single-page web app for booking beauty
appointments. A customer registers, logs in, books a service on a calendar
day, moves a booking to another day and cancels it. No day may hold more
than `MAX_PER_DAY = 50` active bookings. Everything is kept in three
`localStorage` records: the user list, the current session and the
booking list.

This project models the booking and auth functions of
`LisaBeautyCorner/app.js` (lines 55–123), the `MAX_PER_DAY` constant, and
the `toLowerCase().trim()` email normalisation. It has five modules:

- `Results` / `Errors` (`results.dfy`): `Option`, `Result` and `Outcome`
  take the place of exceptions. There is one error kind per `throw` site
  of the modelled functions, each with its message.
- `Text` (`text.dfy`): lower-casing, `String.prototype.trim`, and
  `NormalizeEmail`. The module proves that normalisation is idempotent.
  It also proves that case and surrounding white space make no difference
  to the result.
- `Accounts` (`accounts.dfy`): `register` and `login` as functions from
  the stored user list to the new user list or the new session. The
  module also holds the directory invariant (emails normalised and
  unique, ids unique) and the session invariant (the session names a
  stored user).
- `Ledger` (`ledger.dfy`): `countActiveByDate`, `userBookings`,
  `createBooking`, `updateBookingDate` and `cancelBooking` as functions on
  the booking list. It also holds the capacity invariant: for every date,
  at most `MAX_PER_DAY` active bookings.
- `App` (`app.dfy`): the class `BeautyCorner`. Its three fields are the
  three storage records. Each mutating function is a method that writes
  one field or, when it throws, writes nothing. Each method except
  `Logout` is proved equal to the matching `Accounts` or `Ledger`
  function; `Logout` clears the session and nothing else. Each keeps
  `Valid()`, the conjunction of the three invariants.

`uid()` and the creation timestamp are parameters of the methods that use
them. A precondition says that the id is not yet used, which is what
`uid()` is trusted to deliver. `created_at` is a `nat` (see "Left out").

The per-user listing sorts with `Array.prototype.sort`, which is stable,
under a comparator that returns 0 on equal `created_at`. Bookings with the
same creation time therefore keep their stored order
(`Ledger.SortNewestFirstStable`, `Ledger.UserBookings`).

## Model

| member | source | states |
|---|---|---|
| Errors.Message | LisaBeautyCorner/app.js:59-111 | gives each error the sentence its `throw` passes to the user interface (lines 59, 69, 90, 108, 111); the contract states only that every message ends in a full stop |
| Errors.MessagesDistinct | LisaBeautyCorner/app.js:59-111 | two errors carry the same message exactly when they are the same error, so the text shown identifies the failure |
| Text.ToLower | LisaBeautyCorner/app.js:56 | lower-casing keeps the length and maps every character on its own: A–Z to a–z, everything else unchanged |
| Text.Trim | LisaBeautyCorner/app.js:56-61 | the trimmed string neither starts nor ends with white space (with Text.TrimIsSlice: it is the input minus its leading and trailing white space) |
| Text.NormalizeEmail | LisaBeautyCorner/app.js:56 | the normalised email has no upper-case ASCII letter and no white space at either end |
| Text.NormalizeEmailFixesNormal | LisaBeautyCorner/app.js:56 | normalisation leaves a string unchanged exactly when the string is already in normal form |
| Text.NormalizeEmailIdempotent | LisaBeautyCorner/app.js:56 | normalising twice gives the same result as normalising once |
| Text.NormalizeEmailIgnoresCaseAndPadding | LisaBeautyCorner/app.js:56 | two emails that differ only in ASCII letter case and in surrounding white space normalise to the same string |
| Text.TrimIsSlice | LisaBeautyCorner/app.js:56 | trim keeps one contiguous slice of its input and removes only white space before and after it |
| Text.TrimStartIsSuffix | LisaBeautyCorner/app.js:56 | dropping leading white space leaves a suffix, and every character dropped is white space |
| Text.TrimEndIsPrefix | LisaBeautyCorner/app.js:61 | dropping trailing white space leaves a prefix, and every character dropped is white space |
| Text.TrimOfNoUpper | LisaBeautyCorner/app.js:56 | trimming a string with no upper-case letter yields a string with no upper-case letter |
| Accounts.HasEmail | LisaBeautyCorner/app.js:58 | `users.some(...)` holds exactly when some stored user has that email |
| Accounts.FindUser | LisaBeautyCorner/app.js:68 | `users.find(...)` returns the first user whose email and password both match, or none when no user matches |
| Accounts.Register | LisaBeautyCorner/app.js:55-63 | fails with the duplicate-email error exactly when a stored user has the normalised email; otherwise appends one user with the trimmed name and the normalised email, and earlier users are unchanged |
| Accounts.Login | LisaBeautyCorner/app.js:65-71 | succeeds exactly when some user has the normalised email and the identical password, yielding that first user's `{id, name, email}`; otherwise fails with the invalid-credentials error |
| Accounts.RegisterKeepsDirectoryValid | LisaBeautyCorner/app.js:58-62 | registration keeps stored emails normalised and pairwise distinct, and user ids pairwise distinct |
| Accounts.RegisterKeepsSessionValid | LisaBeautyCorner/app.js:61 | registration keeps a session that names a stored user valid |
| Accounts.AppendKeepsDirectoryValid | LisaBeautyCorner/app.js:61 | appending a user with a normal, new email and a fresh id keeps the directory invariant |
| Accounts.SessionOfStored | LisaBeautyCorner/app.js:70 | the session built from any stored user names a stored user |
| Accounts.SessionOfSomeIsExists | LisaBeautyCorner/app.js:70 | the recursive "session of some stored user" predicate holds exactly when some stored user's `{id, name, email}` equals the session |
| Accounts.SessionOfSomeAppend | LisaBeautyCorner/app.js:61 | appending a user keeps every stored user's session stored |
| Accounts.RegisterStep | LisaBeautyCorner/app.js:55-63 | under the invariants: a known email gives the duplicate-email error; otherwise the result is the old list plus the new user, and both invariants hold for it |
| Accounts.RegisterAppends | LisaBeautyCorner/app.js:58-61 | a successful registration appends exactly the new user, whose email no earlier user had |
| Accounts.SecondRegistrationFails | LisaBeautyCorner/app.js:56-59 | after a registration, a second one with the same email in any letter case and with any surrounding white space fails with the duplicate-email error |
| Accounts.RegisterThenLogin | LisaBeautyCorner/app.js:55-71 | right after registering, logging in with the same email in any case and the same password yields the new user's session |
| Accounts.LoginAfterAppend | LisaBeautyCorner/app.js:68-70 | logging in as a newly appended user whose email is unique yields that user's session |
| Accounts.FindUserUnique | LisaBeautyCorner/app.js:68 | when only one user has the email, the lookup finds that user |
| Accounts.LoginFindsTheUser | LisaBeautyCorner/app.js:65-71 | under the directory invariant, login with a stored user's email and password yields that user's session |
| Accounts.AnnScenario | LisaBeautyCorner/app.js:55-71 | registering Ann with "a@x.com" succeeds; logging in with "A@X.com" and "pw1" yields Ann's session; logging in with "a@x.com" and a wrong password fails with the invalid-credentials error |
| Ledger.CountActiveByDate | LisaBeautyCorner/app.js:78-81 | the count of active bookings on a date is at most the number of bookings |
| Ledger.CountActiveIsIndexCount | LisaBeautyCorner/app.js:78-81 | the count equals the number of positions holding an active booking on that date |
| Ledger.CountAfterAppend | LisaBeautyCorner/app.js:93-101 | appending a booking raises a date's count by one if the booking is active on that date, and leaves it unchanged otherwise |
| Ledger.CountAfterUpdate | LisaBeautyCorner/app.js:113 | replacing one booking changes each date's count by what the old and the new booking contribute to it |
| Ledger.FindIndex | LisaBeautyCorner/app.js:107-108 | `findIndex` returns the first position with the id, or none when no booking has it |
| Ledger.FindIndexSameIds | LisaBeautyCorner/app.js:119 | the lookup depends only on the ids of the bookings |
| Ledger.CreateBooking | LisaBeautyCorner/app.js:88-103 | fails with the bookings-full error exactly when the date's count is at least `MAX_PER_DAY`; otherwise appends one active booking whose note defaults to "" and keeps earlier bookings unchanged |
| Ledger.CreateKeepsLedgerValid | LisaBeautyCorner/app.js:89-102 | a successful creation raises its date's count by exactly one and keeps the capacity invariant and distinct ids |
| Ledger.LastPlaceThenFull | LisaBeautyCorner/app.js:3 | on a date with 49 active bookings the next creation succeeds, and the one after it fails with the bookings-full error |
| Ledger.UpdateBookingDate | LisaBeautyCorner/app.js:105-115 | fails with the not-found error exactly when no booking has the id; fails with the date-fully-booked error exactly when the first booking with the id moves to a different date whose count is at least `MAX_PER_DAY`; no other error occurs; otherwise only the date of that booking changes |
| Ledger.SameDateNeverFull | LisaBeautyCorner/app.js:110 | rescheduling a booking to the date it already has succeeds and changes nothing, whatever the load |
| Ledger.RescheduleFailsWhen | LisaBeautyCorner/app.js:110-111 | rescheduling an existing booking to a different date fails exactly when that date's count is at least `MAX_PER_DAY`, and then with the date-fully-booked error |
| Ledger.UpdateKeepsLedgerValid | LisaBeautyCorner/app.js:105-115 | a successful reschedule keeps the capacity invariant and distinct ids |
| Ledger.CancelBooking | LisaBeautyCorner/app.js:117-123 | an unknown id leaves the list unchanged; otherwise the first booking with that id becomes canceled, every other booking is unchanged, and no booking becomes active again |
| Ledger.CancelIdempotent | LisaBeautyCorner/app.js:117-123 | cancelling twice gives the same list as cancelling once |
| Ledger.CancelFreesOnePlace | LisaBeautyCorner/app.js:121 | cancelling an active booking lowers its date's count by exactly one and leaves every other date's count unchanged |
| Ledger.CancelKeepsLedgerValid | LisaBeautyCorner/app.js:117-123 | cancelling keeps the capacity invariant and distinct ids |
| Ledger.CancelThenCreate | LisaBeautyCorner/app.js:89-90 | on a full date, cancelling one of its active bookings lets the next creation on that date succeed |
| Ledger.BookingsOf | LisaBeautyCorner/app.js:85 | the filter keeps exactly the bookings of that user, each as many times as it is stored |
| Ledger.CreatedAtAppend | LisaBeautyCorner/app.js:85 | selecting the bookings created at one instant distributes over concatenation |
| Ledger.BookingsOfKeepsOrder | LisaBeautyCorner/app.js:85 | the filter keeps stored order: filtering by user and selecting one creation time commute |
| Ledger.InsertNewestFirst | LisaBeautyCorner/app.js:85 | one insertion step adds exactly the inserted booking |
| Ledger.InsertNewestFirstSorted | LisaBeautyCorner/app.js:85 | inserting into a newest-first list keeps it newest-first |
| Ledger.SortNewestFirst | LisaBeautyCorner/app.js:85 | the sort is a permutation of its input, ordered by creation time, newest first |
| Ledger.InsertNewestFirstStable | LisaBeautyCorner/app.js:85 | an insertion puts the inserted booking ahead of the bookings with the same creation time |
| Ledger.SortNewestFirstStable | LisaBeautyCorner/app.js:85 | the sort keeps bookings with the same creation time in their stored order |
| Ledger.UserBookings | LisaBeautyCorner/app.js:83-86 | returns exactly that user's bookings, as a permutation of the filtered list, newest first; the user's bookings with one creation time appear in their stored order |
| App.BeautyCorner.constructor | LisaBeautyCorner/app.js:22-24 | the store starts with no users, no bookings and no session, and the invariants hold |
| App.BeautyCorner.Register | LisaBeautyCorner/app.js:55-63 | the outcome and the new user list are those of `Accounts.Register`; a failure writes nothing; the invariants are kept |
| App.BeautyCorner.Login | LisaBeautyCorner/app.js:65-71 | the outcome is that of `Accounts.Login`; the session becomes the found user's on success and is unchanged on failure; the invariants are kept |
| App.BeautyCorner.Logout | LisaBeautyCorner/app.js:73-75 | the session becomes none, nothing else changes, and the invariants are kept |
| App.BeautyCorner.CreateBooking | LisaBeautyCorner/app.js:88-103 | the outcome and the new booking list are those of `Ledger.CreateBooking`; a failure writes nothing; capacity is never exceeded |
| App.BeautyCorner.UpdateBookingDate | LisaBeautyCorner/app.js:105-115 | the outcome and the new booking list are those of `Ledger.UpdateBookingDate`; a failure writes nothing; capacity is never exceeded |
| App.BeautyCorner.CancelBooking | LisaBeautyCorner/app.js:117-123 | the new booking list is that of `Ledger.CancelBooking`; capacity is never exceeded |

## Left out

- The user interface: `flash`, `showView`, `renderDashboard`, the dashboard rendering and the form handlers (LisaBeautyCorner/app.js:26-52, 125 onwards). These display state and call the modelled functions.
- The input checks of the form handlers are not modelled. The register handler trims name and email and throws "All fields are required." when a field is empty (LisaBeautyCorner/app.js:193-197); that sixth `throw` has no `Errors.Error` kind. The booking handler refuses to book without a session (LisaBeautyCorner/app.js:232) or without a service and a date (LisaBeautyCorner/app.js:239). The edit handler refuses an empty date (LisaBeautyCorner/app.js:282). The modelled functions accept any strings, empty ones included, and `Accounts.Register` trims the email again itself.
- `localStorage` and JSON in `load`/`save`, including the fallback when parsing fails (LisaBeautyCorner/app.js:7-10). This is browser I/O. The three records are class fields, and each load/save pair is one read and one write of a field.
- The start-up code writes empty records only when none exist (LisaBeautyCorner/app.js:22-24). The constructor models a first start, on empty storage only.
- `uid()` (LisaBeautyCorner/app.js:12-14) and `new Date().toISOString()` (LisaBeautyCorner/app.js:100) depend on randomness and the clock. They are parameters. The freshness of ids is a precondition, not a proof.
- `created_at` is an ISO-8601 string compared with `localeCompare`. It is modelled as a `nat` ordered numerically. Timestamps of one fixed format sort the same way as the instants they denote. Locale collation is not modelled.
- `Text.ToLower`: maps only the ASCII letters A–Z. The Unicode case mapping of `toLowerCase` is not modelled, because it depends on the Unicode tables.
- `Text.IsSpace` is the full list of characters that ECMAScript `trim` removes (WhiteSpace and LineTerminator). Unicode category tables beyond that list are not consulted.
- `note || ""`: an absent note is `None`. Other falsy values that JavaScript would also replace are not represented.
- The check against past dates and `todayISO` (LisaBeautyCorner/app.js:132-136, 241-243, 284-286). They depend on the wall clock and live in the form handlers, not in the booking functions.
- The `setTimeout` in `flash` (LisaBeautyCorner/app.js:31). It is asynchronous UI behaviour.
- Passwords are stored and compared in plain text, as in the code. Hashing is not part of the model.
- Only one browser tab is modelled. Several tabs writing the same `localStorage` concurrently are not.
