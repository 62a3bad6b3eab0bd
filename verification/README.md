# nasiya-app core, modelled in Dafny

nasiya-app is a React client for shop owners who sell on credit ("nasiya"):
they log in, unlock the app with a four-digit PIN, keep a list of debtors,
edit debtor records, look at a month calendar and send complaints. This
project models the parts of the client that are small sequential rules
rather than screens: the session and PIN gate with its lockout, the
connectivity mirror, the routing gate, the debtor list ordering and search
fallback, the debtor forms, the calendar grid, the phone and initials
formatters, and the complaint check.

Every React handler is one pure function from the pre-state to the
post-state. The `set…` calls of a handler are applied in code order as
record updates, and values the handler computes are taken from the
pre-state snapshot, as React does. Time is an integer number of
milliseconds passed in as `now`. The browser's `localStorage` and
`sessionStorage` are two `map<string, string>` values (`Base.Storage`).
A Dafny `char` is a Unicode scalar value, so a string holds one `char`
per code point; where JavaScript's `length` decides something, the model
counts UTF-16 code units with `Text.JsLength`. Timers (`setTimeout`,
`setInterval`) become explicit events, and server answers become
parameters.

Modules, one per source file:

| module | file | source |
|---|---|---|
| `Base` | base.dfy | shared `Option`, storage, keys, subsequence |
| `Text` | text.dfy | JavaScript string primitives (`trim`, `includes`, `padStart`, case mapping, `toString`) |
| `LoginApi` | login_api.dfy | src/services/loginApi.tsx |
| `AuthContext` | auth_context.dfy | src/context/AuthContext.tsx |
| `PinScreen` | pin_screen.dfy | src/components/PinScreen.tsx |
| `LoginScreen` | login_screen.dfy | src/components/LoginScreen.tsx |
| `NetworkContext` | network_context.dfy | src/context/NetworkContext.tsx |
| `App` | app.dfy | src/App.tsx, plus the whole client as one state machine |
| `Debtors` | debtors.dfy | src/pages/Debtors.tsx |
| `EditDebtor` | edit_debtor.dfy | src/pages/EditDebtor.tsx |
| `DebtorCreate` | debtor_create.dfy | src/pages/DebtorCreate.tsx |
| `Calendar` | calendar.dfy | src/pages/Calendar.tsx |
| `Utils` | utils.dfy | src/lib/utils.ts |
| `Complaint` | complaint.dfy | src/pages/Complaint.tsx |

Points where the model follows the code closely:

- `verifyPin` computes the new attempt count from the snapshot taken before
  the call. A wrong PIN therefore overwrites the expiry reset, and once the
  count reaches 4 every later wrong PIN locks the keypad again.
- At the exact instant `now == blockUntil` neither the lockout branch nor
  the expiry branch fires.
- `verifyPin` does not look at `isAuthenticated`. The order of the two
  flags comes from the routing gate alone.
- A login answer without `accessToken` still counts as a successful login,
  but nothing is persisted, so a reload does not restore it.
- A screen's own state lives only while React keeps it mounted. The login
  form and the PIN keypad start afresh every time the gate shows them, and
  a login that reaches the server raises the context's loading flag, which
  swaps the login screen for the spinner. The login screen's
  invalid-credentials message is therefore never seen: the screen that set
  it is gone by then.
- `new Date(y, m, d)` reads years 0 to 99 as 1900 to 1999. The calendar
  model keeps this, so month stepping round-trips only outside those years.

## Model

| member | source | states |
|---|---|---|
| LoginApi.LoginUser | src/services/loginApi.tsx:12-25 | a failed request is rethrown with no storage write; an answer is returned as is; only an answer with a truthy access token writes the access token, the refresh token and the user, and no other key changes |
| LoginApi.StoredText | src/services/loginApi.tsx:16-17 | `setItem` stores a present string as is, a missing field as "undefined" and `null` as "null" |
| LoginApi.UserJson | src/services/loginApi.tsx:18 | `JSON.stringify` gives no value for a missing user, so "undefined" is stored; "null" for `null`; an object text otherwise |
| AuthContext.VerifyPin | src/context/AuthContext.tsx:89-131 | while locked nothing changes and the result is false, even for the right PIN; the result is true exactly when unlocked and the PIN is "1111", which sets the PIN flag, clears the counter and lock and writes `pinVerified`; a wrong PIN sets the counter to the pre-call count plus one and locks for 3 minutes at 8 or more, for 30 seconds at 4 to 7, and not at all below 4 |
| AuthContext.ResetPinAttempts | src/context/AuthContext.tsx:148-151 | the counter is 0, the lock is cleared, and nothing else changes |
| AuthContext.Logout | src/context/AuthContext.tsx:133-146 | both tokens and `pinVerified` are removed and every other stored key keeps its value; the user and both flags are cleared; the counter, the lock and the durable `user` entry are kept |
| AuthContext.Restore | src/context/AuthContext.tsx:37-64 | authenticated exactly when a non-empty access token can be read; then the placeholder user is set and the PIN flag is set exactly when the session flag is the text "true"; loading ends on every path; a storage fault removes the tokens |
| AuthContext.LoginPending | src/context/AuthContext.tsx:69-71 | only the loading flag is raised before the request |
| AuthContext.Login | src/context/AuthContext.tsx:69-87 | succeeds exactly when the request answers, token or not; success sets the user from the answer and the authenticated flag; failure leaves the state as it was apart from loading and shows the failure toast; storage changes only as the login call writes it; loading ends either way |
| AuthContext.ConsecutiveFailures | src/context/AuthContext.tsx:105-127 | from a clear counter, n wrong PINs that are not refused leave the counter at n, with no lock below 4, a 30-second lock for 4 to 7, and a 3-minute lock from 8 on |
| AuthContext.NoEscapeByWrongPins | src/context/AuthContext.tsx:94-127 | once the counter is at least 4 and a lock is set, any run of wrong PINs keeps a lock set, never lowers the counter and never sets the PIN flag |
| AuthContext.LockLiftsAtInstant | src/context/AuthContext.tsx:89-104 | the right PIN is accepted exactly when `now` is not before the lock's end, including the exact instant |
| AuthContext.VerifyPinIgnoresCredentials | src/context/AuthContext.tsx:89-104 | the right PIN unlocks even a session that never logged in |
| AuthContext.LogoutThenRestore | src/context/AuthContext.tsx:133-146 | after a logout a reload never restores an authenticated session |
| AuthContext.TokenlessLoginIsNotRestored | src/context/AuthContext.tsx:69-76 | a successful login whose answer has no access token is not authenticated again after a reload |
| PinScreen.Press | src/components/PinScreen.tsx:32-52 | while locked or with four digits entered a press does nothing; otherwise the digit is appended; the PIN check runs exactly when the fourth digit arrives, with the buffer as argument; a refused PIN shows the error and schedules one clear |
| PinScreen.ClearTimerFires | src/components/PinScreen.tsx:45-48 | the scheduled clear empties the buffer and hides the error |
| PinScreen.Delete | src/components/PinScreen.tsx:54-58 | removes exactly the last digit, does nothing on an empty buffer, and is allowed while locked |
| PinScreen.DeleteUndoesPress | src/components/PinScreen.tsx:32-58 | deleting right after a press that did not complete the PIN restores the keypad |
| PinScreen.StepsKeepBufferValid | src/components/PinScreen.tsx:32-58 | no keypad step ever holds more than four digits or a non-digit |
| PinScreen.CeilDiv | src/components/PinScreen.tsx:18 | `Math.ceil(x / m)` is the least q with x <= q * m |
| PinScreen.Countdown | src/components/PinScreen.tsx:14-25 | the seconds left are shown exactly while `now` is before the lock's end, as the ceiling of the remaining milliseconds over 1000 |
| PinScreen.Tick | src/components/PinScreen.tsx:14-30 | an interval tick updates only the seconds left, and only while a lock is set |
| PinScreen.WaitMessage | src/components/PinScreen.tsx:74-80 | no message for no time left; minutes, rounded up, only above 60 seconds; seconds otherwise |
| PinScreen.ShortLockoutShowsSeconds | src/components/PinScreen.tsx:74-79 | a 30-second lock never shows minutes |
| PinScreen.LongLockoutShowsThreeMinutes | src/components/PinScreen.tsx:74-79 | a fresh 3-minute lock shows "3" minutes |
| PinScreen.JsRemainder | src/components/PinScreen.tsx:62 | JavaScript `%` agrees with the mathematical remainder on non-negative numbers and takes the dividend's sign otherwise |
| PinScreen.FormatTimeReadsBack | src/components/PinScreen.tsx:60-64 | for s >= 0 the text is the minutes without a leading zero (a single "0" for under a minute), a colon and exactly two digits below 60, and minutes * 60 plus seconds read back gives s |
| LoginScreen.Submit | src/components/LoginScreen.tsx:15-25 | the login call is made exactly when both fields are non-empty; otherwise the "enter credentials" error is set; before the call the error is cleared and loading starts |
| LoginScreen.Finish | src/components/LoginScreen.tsx:26-40 | a false answer sets the invalid-credentials error, a thrown call the generic error, a true answer keeps the error; loading ends on every path |
| NetworkContext.Init | src/context/NetworkContext.tsx:12-13 | online mirrors the environment flag and a last-online time exists exactly when starting online |
| NetworkContext.OnOnline | src/context/NetworkContext.tsx:16-19 | going online sets the flag and the last-online time to the event's time |
| NetworkContext.OnOffline | src/context/NetworkContext.tsx:21-23 | going offline clears the flag and keeps the last-online time |
| NetworkContext.RunKeepsInvariant | src/context/NetworkContext.tsx:12-23 | along any events, online implies a last-online time, a last-online time never disappears, and the flag and time follow the last event |
| App.ProtectedRoute | src/App.tsx:29-49 | spinner while loading, login screen when not authenticated, PIN screen when not PIN-authenticated, and the page exactly when loaded and both flags are set |
| App.AppContent | src/App.tsx:51-74 | offline shows the network error whatever the route or session; online, a guarded route goes through the gate and the open route shows its page |
| App.OnlyCatchAllIsOpen | src/App.tsx:63-73 | every route except `*` is guarded, so none of them shows its page unless the gate lets it |
| App.Remount | src/App.tsx:29-49 | the keypad is reset exactly when the PIN screen was not shown before or is not shown after, the login form likewise for the login screen; session, storage and connectivity are untouched |
| App.Boot | src/App.tsx:51-57 | start-up ends loading, mirrors the environment's connectivity, is authenticated exactly when a truthy access token can be read, is PIN-authenticated exactly when also the session flag reads "true" without a storage fault, and shows a fresh keypad and login form |
| App.ShownDuring | src/App.tsx:29-38 | the screen between handler and re-render differs from the gate's only for a login submit on the login screen, and then it is the spinner |
| App.Step | src/App.tsx:29-57 | after any event the keypad is fresh unless the PIN screen was shown before and after, the login form is fresh unless the login screen stayed mounted through it; an event of a screen that is not shown changes nothing but the remount |
| App.BootValid | src/App.tsx:51-57 | the client after start-up satisfies the client invariant |
| App.StepKeepsInv | src/App.tsx:29-57 | every event keeps the invariant: PIN flag implies authenticated, a lock implies at least 4 failures, a valid keypad, a valid connectivity state, and an unshown gate screen holds its initial state |
| App.UnshownScreenEventsIgnored | src/App.tsx:40-46 | under the invariant, keypad and login events reach nothing while their screen is not shown |
| App.EnteringPinViewShowsEmptyBuffer | src/components/PinScreen.tsx:10-12 | whenever a step brings the PIN screen up, its buffer is empty, and the next unlocked digit press shows exactly that digit |
| App.FailedLoginShowsFreshForm | src/components/LoginScreen.tsx:15-41 | a filled-in login whose request fails shows the spinner meanwhile, returns to a fresh login form with no invalid-credentials text, and leaves session and storage alone |
| App.EmptyFieldShowsMessage | src/components/LoginScreen.tsx:18-22 | a submit with an empty field keeps the login screen mounted and shows the "enter credentials" error, with session and storage unchanged |
| App.AnsweredLoginOpensEmptyKeypad | src/context/AuthContext.tsx:69-87 | a login the server answers moves the gate to the PIN screen with an empty keypad and a fresh login form |
| App.RunKeepsInv | src/App.tsx:29-57 | along any run of events the PIN flag is never set without the authenticated flag |
| Debtors.LocaleCompare | src/pages/Debtors.tsx:148 | the name comparison is -1, 0 or 1 and is 0 exactly for equal names |
| Debtors.LocaleCompareFlips | src/pages/Debtors.tsx:148 | swapping the names negates the comparison |
| Debtors.LocaleCompareTransitive | src/pages/Debtors.tsx:148 | the name order is transitive |
| Debtors.SortDebtors | src/pages/Debtors.tsx:139-150 | the sorted list is a permutation of the list (same multiset, same length) in which no entry sorts after a later one under the comparator |
| Debtors.InsertKeepsSorted | src/pages/Debtors.tsx:139-150 | inserting into a sorted list keeps it sorted |
| Debtors.SortedDebtorsOrder | src/pages/Debtors.tsx:139-150 | in the shown list every favourite precedes every non-favourite, and names do not descend within either group |
| Debtors.SortIgnoresDebt | src/pages/Debtors.tsx:139-150 | changing the debt amounts and then sorting equals sorting and then changing them: the order never depends on the amount |
| Debtors.ToggleFavorite | src/pages/Debtors.tsx:122-137 | the toggled id's membership flips and every other id's membership is unchanged |
| Debtors.ToggleTwice | src/pages/Debtors.tsx:126-134 | toggling the same id twice gives back the set |
| Debtors.InitialFavorites | src/pages/Debtors.tsx:51-53 | the favourite set is exactly the ids of entries whose favourite flag is set |
| Debtors.FetchDebtors | src/pages/Debtors.tsx:28-77 | the server's non-empty list is used as is, otherwise (empty, missing or failed) the five-entry fallback list; favourites come from that list's flags |
| Debtors.FallbackFavorites | src/pages/Debtors.tsx:35-47 | on the fallback list the favourite set is exactly {"1"} |
| Debtors.FallbackSearch | src/pages/Debtors.tsx:99-103 | the filter keeps a subsequence of the list; every kept entry matches (lower-cased name contains the lower-cased query, or phone contains the query) and every matching entry is kept |
| Debtors.FallbackSearchCounts | src/pages/Debtors.tsx:99-103 | each matching entry is kept as many times as the list holds it, and a non-matching one not at all |
| Debtors.SearchEffect | src/pages/Debtors.tsx:79-120 | an empty query does nothing; a blank query reloads the whole list but keeps the current one when nothing comes back; otherwise the server's hits, or the local filter when there are none or the call fails |
| EditDebtor.ValidPhoneIsNotBlank | src/pages/EditDebtor.tsx:72-74 | a phone matching `^\+998[0-9]{9}$` has no white space, so trimming keeps it and it is not empty |
| EditDebtor.NonBlankIsTrimTest | src/pages/EditDebtor.tsx:93 | `p.trim() !== ''` holds exactly when p has a character that is not white space |
| EditDebtor.KeepNonBlank | src/pages/EditDebtor.tsx:92-94 | the payload filter keeps a subsequence, only non-blank entries, and every non-blank entry |
| EditDebtor.KeepNonBlankCounts | src/pages/EditDebtor.tsx:92-94 | each non-blank entry is kept as many times as the list holds it, and a blank one not at all |
| EditDebtor.KeepNonBlankOfNonBlank | src/pages/EditDebtor.tsx:92-94 | on a list with no blank entry the filter drops nothing |
| EditDebtor.Submit | src/pages/EditDebtor.tsx:68-95 | the update is sent exactly when every phone matches the pattern, an empty one included, and then the payload equals the form, phones included |
| EditDebtor.InitialFormIsRejected | src/pages/EditDebtor.tsx:23-84 | the untouched form with its one empty phone is never sent |
| EditDebtor.Load | src/pages/EditDebtor.tsx:42-62 | a failed fetch keeps the form; a fetched record is copied with an empty phone list replaced by one empty field, so the list is non-empty |
| EditDebtor.InputChange | src/pages/EditDebtor.tsx:120-125 | the named text field takes the value and every other field is unchanged |
| EditDebtor.ReplaceAt | src/pages/EditDebtor.tsx:130-132 | the mapped list has the same length, the value at the index, and every other entry unchanged |
| EditDebtor.PhoneChange | src/pages/EditDebtor.tsx:127-134 | only the phone at the index changes; an index outside the list changes nothing |
| EditDebtor.AddPhone | src/pages/EditDebtor.tsx:136-141 | exactly one empty phone is appended and nothing else changes |
| EditDebtor.DropAt | src/pages/EditDebtor.tsx:147 | the index filter removes exactly the entry at the index, or nothing for an index outside the list |
| EditDebtor.RemovePhone | src/pages/EditDebtor.tsx:143-150 | with more than one phone the entry at the index is removed; with one phone, or an index outside the list, nothing changes; the list never becomes empty |
| EditDebtor.RemoveUndoesAdd | src/pages/EditDebtor.tsx:136-150 | adding a phone and removing the new last field gives back the form |
| EditDebtor.PhoneListNeverEmpty | src/pages/EditDebtor.tsx:43-150 | along any sequence of loads and edits the phone list stays non-empty |
| EditDebtor.PhoneListNeverEmptyFromStart | src/pages/EditDebtor.tsx:23-29 | starting from the initial form, the phone list is never empty |
| DebtorCreate.AddPhone | src/pages/DebtorCreate.tsx:19-21 | exactly one empty phone is appended and nothing else changes |
| DebtorCreate.PhoneChange | src/pages/DebtorCreate.tsx:23-27 | only the phone at the index changes and the length is kept |
| DebtorCreate.Submit | src/pages/DebtorCreate.tsx:29-54 | an empty name warns and stays; a name with a missing first phone warns and stays; otherwise the step becomes 3 with no warning |
| DebtorCreate.LaterPhonesUnchecked | src/pages/DebtorCreate.tsx:39-49 | phones after the first are never looked at |
| DebtorCreate.Step | src/pages/DebtorCreate.tsx:56-297 | an event whose control is not rendered on the current step changes nothing; the name and address change only by typing on step 1, the note only by typing on step 2, and the phone count only by the add button, which appends one empty field |
| DebtorCreate.FrozenAfterStep1 | src/pages/DebtorCreate.tsx:155-181 | from step 2 on, no event changes the name, the address or the existing phone entries |
| DebtorCreate.StepMachine | src/pages/DebtorCreate.tsx:110-170 | the step stays in {1, 2, 3}; 1 goes to 2 by the note button and 2 to 1 by back; step 3 is entered only by a submit with a name and a first phone, and is never left |
| DebtorCreate.RunKeepsStepValid | src/pages/DebtorCreate.tsx:12-54 | along any events the step stays in {1, 2, 3} and at least one phone field remains |
| DebtorCreate.RunFromStart | src/pages/DebtorCreate.tsx:12-14 | from the blank form the same holds for every run |
| Calendar.DaysInMonth | src/pages/Calendar.tsx:28-31 | a month has 28 to 31 days, February 29 exactly in Gregorian leap years |
| Calendar.YearLength | src/pages/Calendar.tsx:27-31 | the day count from year 0 grows by 366 over a leap year and 365 otherwise |
| Calendar.MonthFollows | src/pages/Calendar.tsx:27-31 | the 1st of a month is the day after the last day of the month before, across a year end too |
| Calendar.Weekday | src/pages/Calendar.tsx:30 | `getDay()` is in 0..6 |
| Calendar.Y2kWasSaturday | src/pages/Calendar.tsx:30 | 1 January 2000 is a Saturday |
| Calendar.WeekdayAdvances | src/pages/Calendar.tsx:30 | the next day has the next weekday |
| Calendar.CarryBack | src/pages/Calendar.tsx:27-28 | a day before the 1st is carried into earlier months, giving a valid date exactly d - 1 days after the 1st |
| Calendar.CarryForward | src/pages/Calendar.tsx:27-28 | a day past the month's end is carried into later months, giving a valid date exactly d - 1 days after the 1st |
| Calendar.Normalize | src/pages/Calendar.tsx:27-28 | an out-of-range day is carried into earlier or later months, giving a valid date exactly d - 1 days after the 1st |
| Calendar.MakeDate | src/pages/Calendar.tsx:27-28 | `new Date(y, m, d)` is a valid date d - 1 days after the 1st of month m, the month carried into the year and two-digit years read as 19xx |
| Calendar.DayNumberInjective | src/pages/Calendar.tsx:27-28 | two valid dates on the same day are the same date |
| Calendar.LastDayOfMonth | src/pages/Calendar.tsx:28-31 | `new Date(y, m + 1, 0)` is the last day of month m, so `daysInMonth` is its Gregorian length |
| Calendar.DayOfMonth | src/pages/Calendar.tsx:39-41 | `new Date(y, m, i)` for a day the month has is that very day |
| Calendar.LeadingBlanks | src/pages/Calendar.tsx:30-37 | the blank count is in 0..6 and is how many days the 1st falls after a Monday |
| Calendar.GenerateCalendarDays | src/pages/Calendar.tsx:23-44 | the grid is the leading blanks followed by days 1 to the month's length of the shown month, in order, and is at most 37 cells long |
| Calendar.PreviousMonth | src/pages/Calendar.tsx:48-50 | the 1st of the previous month, going from January to December of the year before |
| Calendar.NextMonth | src/pages/Calendar.tsx:52-54 | the 1st of the next month, going from December to January of the next year |
| Calendar.PreviousUndoesNext | src/pages/Calendar.tsx:48-54 | going forward and back returns to the 1st of the same month, outside the two-digit years |
| Calendar.MarkedCells | src/pages/Calendar.tsx:56-71 | on the grid of the shown month, the cells `isToday` or `isSelected` highlight for a date are exactly the one cell of that day when the date is in the shown month, and none otherwise |
| Calendar.FormatDay | src/pages/Calendar.tsx:15-17 | the day is two digits whose value is the day of the month |
| Utils.FindPhone | src/lib/utils.ts:17 | the pattern's search finds the leftmost match, or none |
| Utils.FormatPhoneNumber | src/lib/utils.ts:13-21 | "" gives ""; text not starting with "+998" is returned as is; otherwise only the leftmost match of "+998" and nine digits is spaced out and the text around it is kept |
| Utils.FormatExample | src/lib/utils.ts:17 | "+998912345678" becomes "+998 91 234 56 78" |
| Utils.FormatOnlyInsertsSpaces | src/lib/utils.ts:16-17 | removing the spaces from a formatted thirteen-character phone gives the phone back |
| Utils.FormatIdempotent | src/lib/utils.ts:16-17 | formatting a formatted thirteen-character phone again changes nothing |
| Utils.Split | src/lib/utils.ts:26 | `split(' ')` gives at least one piece and no piece holds a space |
| Utils.JoinSplit | src/lib/utils.ts:26 | joining the pieces with spaces gives the text back |
| Utils.GetInitials | src/lib/utils.ts:23-30 | "" gives ""; the result has at most two characters and no lower-case ASCII letter |
| Utils.InitialsOfWord | src/lib/utils.ts:26-27 | a single word gives its first character in upper case |
| Utils.InitialsOfWords | src/lib/utils.ts:26-29 | two or more words give the upper-cased first characters of the first two, whatever follows |
| Text.JsLength | src/pages/Complaint.tsx:14 | JavaScript's `length` lies between the code-point count and twice it, equal to the first exactly when no character lies above U+FFFF and to the second exactly when every one does |
| Complaint.Submit | src/pages/Complaint.tsx:9-23 | accepted exactly when the message is not all white space and its JavaScript length (UTF-16 code units) is at most 500; a blank message warns first, a long one second, and both leave message and storage alone; an accepted message is stored untrimmed under `complaintMessage` and the field is cleared |
| Complaint.SpacesAskForMessage | src/pages/Complaint.tsx:10-17 | 600 spaces ask for a message rather than warning about length |
| Complaint.PaddedMessageTooLong | src/pages/Complaint.tsx:14-17 | length is counted before trimming |
| Complaint.AstralTextCountsTwice | src/pages/Complaint.tsx:14-17 | 251 emoji, each two code units, are already too long |
| Complaint.StoredMessageIsAcceptable | src/pages/Complaint.tsx:9-23 | whatever is stored under `complaintMessage` passed both checks |

## Left out

- Network requests, their URLs and headers: every server answer is a parameter (`LoginApi.Response`, `Debtors.Answer`, the `Option` a debtor fetch returns). An `EditDebtor` update that the server refuses is not modelled; `EditDebtor.Submit` stops at the payload.
- Rendering, styling, icons and navigation (`navigate`, `Link`) are not modelled; `App.View` names which screen is shown.
- Toast texts are modelled only where a decision depends on them (`AuthContext.Toast`, `DebtorCreate.Warning`, `Complaint.Notice`); the success toast of the login screen is not modelled.
- The loading spinners of `Debtors` and `EditDebtor` are not modelled; they do not affect the data.
- The other screens (dashboard, debt and debtor detail, add debt, profile, settings, helpful, program, index), the status bar, the phone frame, `api.ts` and `userApi.tsx` are not part of this model.
- `cn` and `formatUZCurrency` are thin wrappers over class-name and `Intl.NumberFormat` libraries, and the calendar's month label comes from `toLocaleDateString`; locale tables are not modelled.
- The 500 ms debounce of the search box is not modelled: `Debtors.SearchEffect` receives the debounced query.
- Debtors.LocaleCompare: the locale's collation is replaced by lexicographic order of code points, one fixed total order; the sort lemmas use only that it is a total order.
- Debtors.SortDebtors: stability (equal entries keep their order) holds for the insertion sort but is not stated as a property.
- Debtors.FetchDebtors: a `null` answer is treated like an empty list, and an entry without a `favorite` field has the flag false.
- Text.ToLower: case mapping covers ASCII letters only, as does `Text.ToUpper`.
- Strings hold code points, not UTF-16 code units. `Text.JsLength` counts code units where a length is compared, but `charAt(0)` in `Utils.GetInitials` returns a whole character above U+FFFF where JavaScript returns half a surrogate pair, and `Debtors.LocaleCompare` orders by code point, which can differ from code-unit order above U+FFFF.
- LoginApi.LoginData: tokens are strings, missing or `null`; a token of another JSON type (a number, say) is not modelled.
- LoginApi.LoginUser: `JSON.stringify` of the user is a stand-in encoding that keeps the fields distinct, not JavaScript's escaping rules.
- DebtorCreate.PhoneChange: requires an index of a shown phone field; JavaScript would extend the array with holes for a larger index, which the page never passes.
- Calendar.PreviousUndoesNext: requires a year outside 0..99 and not December of year -1, because `new Date` reads two-digit years as 19xx.
- Calendar.MakeDate: the `Date` range limit of about 275,000 years either side of 1970, time zones and daylight-saving changes are not modelled; only local calendar fields are.
- Timers are explicit events (`PinScreen.ClearTimerFires`, `PinScreen.Tick`); how often they fire and the cleanup of intervals are not modelled. A timer of a keypad that is no longer mounted is dropped (`App.Handle` applies it only while the PIN screen is shown).
- Navigation between routes is not an event of `App.Step`; the route is fixed for a run of events.
