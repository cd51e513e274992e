# Telegram pain-management bot: subscription gate, throttle and user table

This project models the logic behind the bot's access control, written in
Dafny, and proves properties of it. It covers three parts:

- **Subscription gate** (`SubscriptionMiddleware`). It decides whether a
  button's callback data needs a paid subscription: free-action prefixes
  win, then material keywords gate. For a gated callback it asks the user
  table, then annotates the handler's data with `requires_subscription`.
  The handler always runs.
- **Throttle** (`ThrottlingMiddleware`). This is a per-user map of the last
  admitted request.
  - A message less than 0.5 s after the last admitted one is dropped, and
    the map is left as it was.
  - An admitted message records its time. It also prunes every entry that
    is a minute old or older.
- **User table** (`GoogleSheetsManager`). This is a spreadsheet of
  fifteen-column rows keyed by the user id. The model covers:
  - creating a user;
  - reading a row as a dict;
  - partial updates that always refresh `last_activity`;
  - the lazy expiry check of a subscription;
  - setting a subscription;
  - counters;
  - the `, `-separated list of chosen problems.

How the source is represented:

- The worksheet is an `Option<seq<seq<string>>>`. `None` means no sheet is
  connected.
- Python's `str` operations, `int`, `str(int)` and `datetime` are stated as
  functions: `Strings`, `Numbers`, `DateTimes`.
- `datetime.now()` is passed in as a parameter.
- The throttle measures time in integer milliseconds.
- `Pipeline` records the middleware order registered in `main.py`. These
  are inner middlewares: they run only once some handler's filters have
  accepted the update. Such a message passes the throttle and then the
  gate. Such a callback query passes only the gate.

## Model

| member | source | states |
|---|---|---|
| Subscription.RequiresSubscription | telegram_bot/bot/middlewares/subscription.py:59-74 | the loop with early return over the free prefixes, then the keyword scan, answers exactly `Gated`: no free prefix and some keyword |
| Subscription.FreePrefixNotGated | telegram_bot/bot/middlewares/subscription.py:63-65 | data starting with any free action is never gated, whatever keywords it holds |
| Subscription.KeywordGated | telegram_bot/bot/middlewares/subscription.py:68-72 | without a free prefix, containing any one of the five keywords gates |
| Subscription.GatedIffTwoKeywords | telegram_bot/bot/middlewares/subscription.py:68-71 | gated iff no free prefix and the data contains "material" or "format_"; the three longer keywords are subsumed |
| Subscription.PaymentConfirmFree | telegram_bot/bot/middlewares/subscription.py:17-20 | `payment_confirm` is already free through the earlier `pay` prefix |
| Subscription.FreePrefixOverridesKeyword | telegram_bot/bot/middlewares/subscription.py:63-65 | `menu_material` contains a keyword but is not gated |
| Subscription.NoKeywordLetters | telegram_bot/bot/middlewares/subscription.py:68-74 | data with no 'm' and no 'f' is never gated |
| Subscription.UngatedExamples | telegram_bot/bot/middlewares/subscription.py:74 | `lab_breath`, `practice_1` and `info` are not gated |
| Subscription.NoFreePrefixByLetters | telegram_bot/bot/middlewares/subscription.py:17-20 | data whose first two letters open no free action has no free prefix |
| Subscription.GatedExamples | telegram_bot/bot/middlewares/subscription.py:68-72 | `materials_theme_2`, `format_video` and `get_material_7` are gated |
| Subscription.MessageNeverFlagged | telegram_bot/bot/middlewares/subscription.py:53-54 | a message is never flagged and never consults the table |
| Subscription.FlagFollowsPayment | telegram_bot/bot/middlewares/subscription.py:40-50 | for a gated callback of a known user the flag is set iff the payment check fails |
| Subscription.UnknownUserFlagged | telegram_bot/bot/database/sheets.py:185-191 | a gated callback is flagged when no sheet is connected or the user is not in the table |
| Subscription.SubscriptionMiddleware.Call | telegram_bot/bot/middlewares/subscription.py:22-57 | the event is passed on unchanged on every path; only `requires_subscription` is written, to "gated and not paid"; the table changes only through the payment check of a gated callback |
| Throttling.ThrottlingMiddleware.constructor | telegram_bot/bot/middlewares/throttling.py:17-19 | the map starts empty |
| Throttling.ThrottlingMiddleware.Call | telegram_bot/bot/middlewares/throttling.py:29-59 | the outcome and the new map are those of `Step`: reject leaves the map, admit records `now` and prunes |
| Throttling.AbsentUserAdmitted | telegram_bot/bot/middlewares/throttling.py:33-50 | a user with no entry is admitted and recorded at `now` |
| Throttling.TooSoonRejected | telegram_bot/bot/middlewares/throttling.py:37-47 | under 500 ms after the last admission: rejected, and the map is exactly unchanged |
| Throttling.StepAdmitsIff | telegram_bot/bot/middlewares/throttling.py:33-38 | admitted iff no entry or at least 500 ms elapsed |
| Throttling.AdmissionState | telegram_bot/bot/middlewares/throttling.py:49-57 | after an admission: the user maps to `now`; all entries are newer than one minute ago; others keep their timestamps; recent ones survive |
| Throttling.PruneOnlyRemoves | telegram_bot/bot/middlewares/throttling.py:54-57 | pruning adds no key and changes no surviving timestamp |
| Throttling.StaleEntryCollected | telegram_bot/bot/middlewares/throttling.py:53-57 | another user's entry a minute old or older is gone after any admission |
| Throttling.SpacingExample | telegram_bot/bot/middlewares/throttling.py:33-50 | for a user whose request at t is admitted, requests at t, t+300, t+600 ms are admitted, rejected, admitted |
| Pipeline.Dispatcher.DispatchMessage | telegram_bot/bot/main.py:48-50 | a throttled message reaches neither the gate nor the handler; an admitted one is flagged false; the table is never touched |
| Pipeline.Dispatcher.DispatchCallback | telegram_bot/bot/main.py:52-53 | callbacks are never throttled: the throttle map is unchanged and the handler always runs |
| Sheets.HeadersDistinct | telegram_bot/bot/database/sheets.py:23-28 | fifteen pairwise distinct column names |
| Sheets.ColumnOf | telegram_bot/bot/database/sheets.py:164-165 | a key's column is its index in HEADERS, and a key outside HEADERS has none |
| Sheets.ColumnOfHeader | telegram_bot/bot/database/sheets.py:165 | `HEADERS.index(HEADERS[i]) == i` |
| Sheets.SetCell | telegram_bot/bot/database/sheets.py:166 | `update_cell` makes the cell read the value and leaves every other cell |
| Sheets.Find | telegram_bot/bot/database/sheets.py:132 | the first row in sheet order that holds a cell equal to the key, or none when no row does |
| Sheets.FindAfterRowChange | telegram_bot/bot/database/sheets.py:155-166 | rewriting the found row so that it still holds the key keeps the lookup on that row |
| Sheets.FindAppended | telegram_bot/bot/database/sheets.py:117 | an appended row holding a new key is the row found for it |
| Sheets.ApplyUpdatesCells | telegram_bot/bot/database/sheets.py:163-166 | a cell after the update loop holds the last value written to its column, or its old value |
| Sheets.UpdatedRowCells | telegram_bot/bot/database/sheets.py:163-174 | `last_activity` holds the stamp; other cells hold the last update to them or stay; keys outside HEADERS change nothing |
| Sheets.LastWriteAbsent | telegram_bot/bot/database/sheets.py:164 | a column no update names receives no write |
| Sheets.TouchKeepsLocation | telegram_bot/bot/database/sheets.py:155-174 | for a found row whose `user_id` cell holds the id, an update that does not name `user_id` leaves the user found in the same row |
| Sheets.AddUserExisting | telegram_bot/bot/database/sheets.py:93-96 | adding a present id appends nothing |
| Sheets.AddUserNew | telegram_bot/bot/database/sheets.py:99-119 | a new id appends one 15-cell row: status "новый", payment "FALSE", empty dates, counters "0", empty problems and notes, both stamps `now`; it is found afterwards |
| Sheets.AddUserCapturedByOtherColumn | telegram_bot/bot/database/sheets.py:93-96 | the id is searched in every cell: with a row whose first name is "42", user 42 is found in that row and `add_user` for 42 appends nothing |
| Sheets.AddUserIdempotent | telegram_bot/bot/database/sheets.py:93-119 | a second `add_user` of the same id changes nothing |
| Sheets.PaymentCheckWritesOnlyOnExpiry | telegram_bot/bot/database/sheets.py:198-209 | the payment check writes only when the end date parses and is past |
| Sheets.ExpiryCorrection | telegram_bot/bot/database/sheets.py:198-207 | for a found row whose `user_id` cell holds the id, on expiry payment becomes "FALSE" and status "истек", the end date stays, and a later check still answers false |
| Sheets.UnparseableEndIgnored | telegram_bot/bot/database/sheets.py:199-211 | an end date that does not parse leaves the answer to the payment flag and causes no write |
| Sheets.SubscribedRowCells | telegram_bot/bot/database/sheets.py:226-233 | a subscription writes payment "TRUE", status "активная подписка" and both dates, and keeps the id cell |
| Sheets.SubscriptionEndAsWrittenThirty | telegram_bot/bot/database/sheets.py:224 | as written, a 30-day end exists only when the start is the 1st of a 31-day month |
| Sheets.SubscriptionEndAsWrittenFailsMidMonth | telegram_bot/bot/database/sheets.py:224 | on 2024-01-15 the as-written end does not exist, while the corrected end does |
| Sheets.ActiveRow | telegram_bot/bot/database/sheets.py:194-211 | a row marked paid whose end parses to a moment not before the check is active |
| Sheets.SubscriptionActiveAfterSet | telegram_bot/bot/database/sheets.py:217-237 | for a found row whose `user_id` cell holds the id, after a subscription is written the check answers true at every moment up to the stored end |
| Sheets.SubscriptionActiveWhenSet | telegram_bot/bot/database/sheets.py:223-233 | for a found row whose `user_id` cell holds the id, with the corrected end, a subscription of one or more days is active when checked at the moment it was set |
| Sheets.IncrementCounterNext | telegram_bot/bot/database/sheets.py:249-250 | a counter holding n reads back n + 1; a cell that is not an integer causes no write |
| Sheets.CounterRowNext | telegram_bot/bot/database/sheets.py:250 | writing `str(n + 1)` to the counter column reads back as n + 1 |
| Sheets.IncrementUnknownField | telegram_bot/bot/database/sheets.py:249-250 | a field outside HEADERS reads as "0" and only `last_activity` changes |
| Sheets.IncrementStep | telegram_bot/bot/database/sheets.py:249-250 | for a found row whose `user_id` cell holds the id, one increment adds one and leaves the user in the same row with the id cell kept |
| Sheets.IncrementRepeatedAdds | telegram_bot/bot/database/sheets.py:239-254 | for a found row whose `user_id` cell holds the id, N consecutive increments of a counter holding m all succeed and leave m + N, with the user in the same row |
| Sheets.WithProblemPresent | telegram_bot/bot/database/sheets.py:266-274 | a problem already listed leaves the cell text identical |
| Sheets.WithProblemAppends | telegram_bot/bot/database/sheets.py:267-273 | for a non-empty problem without ", ", a problem not yet listed is appended after the listed ones, in order |
| Sheets.WithProblemListed | telegram_bot/bot/database/sheets.py:269-270 | for a non-empty problem without ", ", afterwards the problem is in the list |
| Sheets.WithProblemNoDuplicates | telegram_bot/bot/database/sheets.py:269-270 | for a non-empty problem without ", ", a list without duplicates stays without duplicates |
| Sheets.WithProblemSeparatorTitle | telegram_bot/bot/database/sheets.py:267-273 | a title holding ", " breaks the list: "a, b" added to "a" gives "a, a, b", which lists "a" twice and not "a, b" |
| Sheets.SeparatorTitleAlwaysAppended | telegram_bot/bot/database/sheets.py:267-273 | a title holding ", " is never found in the list, so every call appends it: the cell becomes `cell + ", " + title` (the title alone for an empty cell) and grows |
| Sheets.AddProblemStores | telegram_bot/bot/database/sheets.py:266-274 | `add_problem` stores the new list text in `problems_selected` |
| Sheets.GoogleSheetsManager.constructor | telegram_bot/bot/database/sheets.py:31-35 | the manager holds the sheet `_init_sheet` produced, or none when it failed |
| Sheets.GoogleSheetsManager.GetUser | telegram_bot/bot/database/sheets.py:125-147 | none without a sheet or an unknown id; otherwise a dict whose keys are exactly HEADERS, holding the row's cells padded with "" |
| Sheets.GoogleSheetsManager.UpdateUser | telegram_bot/bot/database/sheets.py:149-181 | true iff a sheet is open and the user is found; then exactly the found row becomes `UpdatedRow`, otherwise nothing changes |
| Sheets.GoogleSheetsManager.AddUser | telegram_bot/bot/database/sheets.py:86-123 | true iff a sheet is open; the table becomes `AddUserTable` |
| Sheets.GoogleSheetsManager.CheckPaymentStatus | telegram_bot/bot/database/sheets.py:183-215 | answers `PaymentCheck` and leaves `AfterPaymentCheck` |
| Sheets.GoogleSheetsManager.SetSubscription | telegram_bot/bot/database/sheets.py:217-237 | as written: fails with no write when `replace(day=...)` has no such day, else writes the subscription |
| Sheets.GoogleSheetsManager.SetSubscriptionCorrected | telegram_bot/bot/database/sheets.py:217-237 | the same with the end date `now + days` |
| Sheets.GoogleSheetsManager.IncrementCounter | telegram_bot/bot/database/sheets.py:239-254 | true iff the user is found and the cell is an integer; the table becomes `IncrementTable` |
| Sheets.GoogleSheetsManager.AddProblem | telegram_bot/bot/database/sheets.py:256-278 | true iff the user is found; the table becomes `AddProblemTable` |
| Strings.ContainsTransitive | telegram_bot/bot/middlewares/subscription.py:68-71 | a word inside a keyword is found wherever the keyword is |
| Strings.JoinSplit | telegram_bot/bot/database/sheets.py:267-273 | `', '.join(s.split(', ')) == s` for every text |
| Strings.SplitJoin | telegram_bot/bot/database/sheets.py:267-273 | splitting the join of separator-free pieces gives back the pieces |
| Strings.SplitPiecesPlain | telegram_bot/bot/database/sheets.py:267 | no piece of a split contains the separator |
| Strings.UpperIsTrue | telegram_bot/bot/database/sheets.py:194 | `upper() == 'TRUE'` iff the text is "true" in any mix of cases |
| Numbers.ParseIntText | telegram_bot/bot/database/sheets.py:249-250 | `int(str(n)) == n` |
| DateTimes.AfterStrictTotal | telegram_bot/bot/database/sheets.py:201 | datetime comparison is a strict total order |
| DateTimes.ParseFormat | telegram_bot/bot/database/sheets.py:200 | parsing what `strftime` wrote gives back the datetime without microseconds |
| DateTimes.FormatParse | telegram_bot/bot/database/sheets.py:200 | any text the parser accepts is exactly what `strftime` writes for the result |
| DateTimes.ReplaceDayThirty | telegram_bot/bot/database/sheets.py:224 | `replace(day=day + 30)` succeeds iff the day is the 1st of a 31-day month |
| DateTimes.AddDaysLater | telegram_bot/bot/database/sheets.py:224 | adding days keeps the time of day and moves strictly later for a positive count |
| DateTimes.AddDaysSplit | telegram_bot/bot/database/sheets.py:224 | adding a + b days is adding a days and then b |

## Left out

- The spreadsheet client is replaced by an in-memory table: gspread and oauth2client, `_init_sheet`, `_ensure_headers` and `get_all_users` are not modelled.
- Cells keep exactly the text written; the `USER_ENTERED` value conversion the spreadsheet may apply is not modelled.
- `try`/`except`: network faults, and the `KeyError` of `add_user` without `user_id`, are not modelled. `NewUser` always has an id.
- `datetime.now()` is passed in. One value serves every call within an operation, whereas the source reads the clock separately for `date_registered`, `last_activity` and the expiry comparison.
- DateTimes.Parse: `strptime` is modelled only on the fixed-width form. Python also accepts texts without zero padding, and it matches the format's space as any run of whitespace, so `"2024-01-15\t10:00:00"` parses there. The model treats such texts as unparseable.
- DateTimes.Format: assumes a four-digit, zero-padded year.
- Numbers.ParseInt: `int()` also accepts surrounding whitespace, underscores and non-ASCII digits; the model accepts only an optional sign and ASCII digits.
- Strings.Upper is ASCII upper-casing; Python's full Unicode case mapping is not modelled.
- Sheets.GoogleSheetsManager.UpdateUser: the updates are a sequence of (key, `str(value)`) pairs in dict order; values are already turned into text by the caller.
- The throttle's float seconds are integer milliseconds; `total_seconds() < 0.5` is `now - last < 500`.
- `event.answer` alerts, `logger` calls, async/await and aiogram are not modelled. `LoggingMiddleware` passes every event on unchanged and is omitted from the pipeline.
- Handlers, keyboards and configuration are not part of this model; their table changes are the manager operations above.
- Concurrency on the shared throttle map is not modelled; calls are sequential.
- Sheets.WithProblemAppends, Sheets.WithProblemListed, Sheets.WithProblemNoDuplicates: hold only for a non-empty problem title without ", ". The titles come from a texts module that is not part of this model, so whether every caller meets this is not shown; `Sheets.WithProblemSeparatorTitle` and `Sheets.SeparatorTitleAlwaysAppended` show what happens otherwise.
- Sheets.TouchKeepsLocation, Sheets.ExpiryCorrection, Sheets.SubscriptionActiveAfterSet, Sheets.SubscriptionActiveWhenSet, Sheets.IncrementStep, Sheets.IncrementRepeatedAdds: hold only when the found row's `user_id` cell holds the id. `sheet.find(str(user_id))` searches every cell, so a row holding the id text in another column can be the one found, and a write to that column can then move the lookup (`Sheets.AddUserCapturedByOtherColumn`). The model keeps the whole-sheet search; a lookup restricted to the first column is not modelled.
- Sheets.IncrementRepeatedAdds: gives each call its own `last_activity` stamp, but models no other interleaved change to the table.
- Aiogram's handler filters are not modelled: the pipeline stands for an update that some handler has accepted.
- Throttle pruning runs only when a request is admitted; a rejected request leaves stale entries in place (`Throttling.TooSoonRejected`).
- The throttle is wired only on the message chain, following `main.py`. Callback queries, including rapid repeated button presses, are never throttled (`Pipeline.Dispatcher.DispatchCallback`).

## Findings

| source | as written | input that shows it | evidently intended | confidence | as-written member | corrected member |
|---|---|---|---|---|---|---|
| telegram_bot/bot/database/sheets.py:224 | `end_date = start_date.replace(day=start_date.day + days)` | `set_subscription(user, 30)` on 2024-01-15: day 45 does not exist, `replace` raises, the method returns False and nothing is written; with 30 days it succeeds only on the 1st of a 31-day month | the end date is `start + 30 days` (2024-02-14), and the user is active from the moment of payment | high; not executed | Sheets.SubscriptionEndAsWrittenFailsMidMonth | Sheets.SubscriptionActiveWhenSet |
