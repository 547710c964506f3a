# Task tracker core, modelled in Dafny

A model of a small PHP/MySQL task tracker and its page script, with
proofs of what its code promises.

- `includes/functions.php` holds the shared helpers: `sanitize_input`, `validate_date`, `validate_task_data`, the badge lookups, and the CSRF-token and flash-message functions over `$_SESSION`.
- `index.php` contributes the filtered list query, its status tallies and the due-date column label.
- `view.php` contributes the id check, its own badge and icon tables, the visibility rules, and the urgency alert under the due date.
- `create.php` contributes the create controller.
- `env_loader.php` contributes the `.env` loader.
- `js/script.js` contributes the table sort, the live search, the description counter and the due-date check.

Modules, one file each:

- `Wrappers` (wrappers.dfy) has `Option` and `Outcome`.
- `PhpStrings` (php_strings.dfy) has the PHP built-ins the pages rely on.
  - These are `empty`, `trim`, `stripslashes`, `htmlspecialchars` and the inverse of its substitutions, and decimal digits.
  - `htmlspecialchars` is the PHP 8.1+ default, which escapes both quote characters (`ENT_QUOTES`), applied to valid UTF-8 input.
  - Strings are byte strings (`seq<char>`, one char per byte), so `strlen` is `|s|`.
- `TaskHelpers` (helpers.dfy) models `includes/functions.php`.
  - The session is a `Session` class whose `entries` map is `$_SESSION`.
- `TaskStore` (store.dfy) holds the `tasks` table as a `TaskTable` class.
  - Its rows are a sequence in insertion order, and it has an AUTO_INCREMENT counter.
  - It provides `SELECT ... WHERE id = ?` and the `INSERT`.
- `TaskIndex` (index.dfy) models `index.php`.
  - The builder is an imperative method over `$query`, `$params` and `$types`.
  - Its meaning is given by a conjunction of clauses, with `LIKE '%v%'` read as substring containment.
- `TaskView` (view.dfy) models `view.php`.
  - A due date is the day number of its midnight, and "now" is seconds since the epoch.
  - `diff->days` is the whole number of days between the two.
- `TaskCreate` (create.dfy) models `create.php`. The INSERT changes the `TaskTable` in place.
- `EnvLoader` (env_loader.dfy) models `env_loader.php`. `$_ENV` is the map field of an `Environment` class, and the loop writes into it.
- `TaskScript` (script.dfy) models `js/script.js`.
  - `SortableTable` holds the tbody rows, the headers' `data-order` attributes and the sort class.
  - `TaskList` holds the rows and their `style.display`.

Where the code and its evident intent differ, the model follows the code, except for the commented-out include on the detail page, where `LoadTask` models the intended redirect:

- **The completed-task exemption on the detail page.**
  - The page skips the urgency alert and the "Mark Complete" button when the status is lowercase `'completed'` (view.php:178, 273).
  - The validator admits only `Completed` (includes/functions.php:85), so the test evidently means that value; as written, no validated task is exempt.
  - `UrgencyAlert` and `MarkCompleteShown` follow the code. `UrgencyAlertIntended` and `MarkCompleteShownIntended` give the intended rule. See Findings.
- **`redirect_with_message` in `view.php`.** The page calls it, but its include of `includes/functions.php` is commented out (view.php:4), so PHP would stop with an undefined-function error. `LoadTask` models the redirect the page evidently means: to the list, with the given message.
- **The create form's default status.** The form defaults to `'pending'` in lowercase (create.php:11), which the validator refuses. `DefaultForm` keeps that value.

## Model

| member | source | states |
|---|---|---|
| `PhpStrings.Trim` | includes/functions.php:10 | `trim` returns the input minus a prefix and a suffix made only of stripped characters, leaves no stripped character at either end, and leaves an already trimmed text alone |
| `PhpStrings.StripSlashes` | includes/functions.php:11 | `stripslashes` never lengthens a text and leaves a text without backslashes alone |
| `PhpStrings.TrimIdempotent` | includes/functions.php:10 | trimming twice is trimming once |
| `PhpStrings.StripSlashesUndoesAddSlashes` | includes/functions.php:11 | `stripslashes` undoes `addslashes` on every text |
| `PhpStrings.HtmlSpecialChars` | includes/functions.php:12 | the escaped text holds no `<`, `>`, `"` or `'` and is never shorter than the input |
| `PhpStrings.DecodeUndoesEscape` | includes/functions.php:12 | decoding the five entities gives back the text that was escaped |
| `PhpStrings.EscapeIdempotentIff` | includes/functions.php:12 | escaping twice equals escaping once exactly when the text had nothing to escape |
| `TaskHelpers.SanitizeInput` | includes/functions.php:9-14 | the result holds no raw `<`, `>`, `"` or `'`, and decoding it gives back the trimmed, unslashed input |
| `TaskHelpers.SanitizeOnlyEscapes` | includes/functions.php:9-14 | a text with no surrounding whitespace and no backslash is only HTML-escaped |
| `TaskHelpers.SanitizeNotIdempotent` | includes/functions.php:9-14 | an ampersand before plain text becomes `&amp;`, and a second pass gives `&amp;amp;` |
| `TaskHelpers.FormatYmd` | includes/functions.php:21 | `format('Y-m-d')` gives ten characters with dashes at positions 4 and 7 |
| `TaskHelpers.ValidateDate` | includes/functions.php:19-22 | an accepted text has the `YYYY-MM-DD` shape, parses to a real calendar date, and is exactly that date's `Y-m-d` rendering |
| `TaskHelpers.ParseFormatted` | includes/functions.php:20-21 | parsing a formatted date gives back its year, month and day |
| `TaskHelpers.FormattedDateValidates` | includes/functions.php:19-22 | every formatted calendar date passes `validate_date` |
| `TaskHelpers.ValidateDateExactly` | includes/functions.php:19-22 | `validate_date` accepts exactly the zero-padded YYYY-MM-DD form of a real calendar date |
| `TaskHelpers.LeapDayValidatesInLeapYears` | includes/functions.php:19-22 | 29 February passes exactly in leap years |
| `TaskHelpers.GetPriorityBadge` | includes/functions.php:37-45 | the lookup is total: a known priority gets its own label and colour, anything else the grey "Unknown" badge |
| `TaskHelpers.GetStatusBadge` | includes/functions.php:50-58 | the lookup is total: a known status gets its own label, anything else the dark "Unknown" badge |
| `TaskHelpers.BadgesDistinguishValues` | includes/functions.php:37-58 | different known values never share a badge |
| `TaskHelpers.CheckTitle` | includes/functions.php:67-71 | "required" exactly when the title is empty (including "0"), "too long" exactly when it is non-empty and over 255 bytes; never both |
| `TaskHelpers.ValidateTaskData` | includes/functions.php:63-96 | no errors exactly when all five checks pass; each error is present exactly when its own check fails |
| `TaskHelpers.ErrorsInFieldOrder` | includes/functions.php:63-96 | errors come in field order (title, description, priority, status, due date), at most one per field, so at most five |
| `TaskHelpers.TitleEdgeCases` | includes/functions.php:67-71 | the title "0" is refused as missing, and a 255-byte title is accepted |
| `TaskHelpers.Session.GenerateCsrfToken` | includes/functions.php:127-132 | stores the fresh token only when none is stored, and returns the stored token |
| `TaskHelpers.Session.ValidateCsrfToken` | includes/functions.php:137-139 | true exactly when a token is stored and equals the argument; the session is unchanged |
| `TaskHelpers.Session.SetFlashMessage` | includes/functions.php:119-122 | stores the message and its type |
| `TaskHelpers.Session.DisplayFlashMessage` | includes/functions.php:101-114 | shows the stored message, with type "info" by default, and removes both entries; with no message it changes nothing |
| `TaskHelpers.TokenRoundTrip` | includes/functions.php:127-139 | a second generation returns the first token, and a generated token validates |
| `TaskHelpers.FlashShownOnce` | includes/functions.php:101-122 | a flash message set and then displayed is not shown by the next display |
| `TaskStore.FindById` | view.php:20-25 | the row found is in the table and has the id; nothing is found exactly when no row has it |
| `TaskStore.TaskTable.Insert` | create.php:29-37 | appends one row under the next id, with both timestamps equal, and keeps the ids increasing |
| `TaskIndex.ReadFilters` | index.php:11-13 | an absent parameter is no filter, and no filter holds a raw `<`, `>`, `"` or `'` |
| `TaskIndex.AppendClause` | index.php:20-37 | one filter step appends the clause text, that clause's values, and one `s` per value |
| `TaskIndex.BuildQuery` | index.php:15-39 | the text is the SELECT prefix, then the clauses for the non-empty filters in the order search, status, priority, then ORDER BY. It depends only on which filters are set. The values are `BoundValues`, one per placeholder, each typed `s` |
| `TaskIndex.ClausePlaceholders` | index.php:21-34 | the search clause carries two placeholders and the status and priority clauses one each |
| `TaskIndex.StatementPlaceholders` | index.php:16-39 | the full statement holds one placeholder per bound value |
| `TaskIndex.WhereAppend` | index.php:20-37 | appending a clause with its own values adds that clause to the conjunction |
| `TaskIndex.WhereMeansMatches` | index.php:20-37 | bound to the filters' own values, the WHERE clause holds of a row exactly when the row matches every set filter |
| `TaskIndex.BoundValuesMeaning` | index.php:20-37 | values are bound exactly when some filter is set, and only the `%search%` pattern, the status and the priority are ever bound |
| `TaskIndex.Select` | index.php:16-39 | the listed rows are exactly the table rows that match the filters |
| `TaskIndex.Execute` | index.php:42-48 | the statement returns at most the table's rows, and exactly those for which its WHERE clause holds |
| `TaskIndex.ExecuteSelects` | index.php:41-48 | running the prepared statement over the table gives the matching rows, in table order rather than the page's newest-first order |
| `TaskIndex.ListTasks` | index.php:11-48 | `bind_param` is called exactly when some filter is set, and the result is the matching rows, in table order rather than the page's newest-first order |
| `TaskIndex.UnfilteredSelectsAll` | index.php:11-13 | with every filter absent, empty or "0", every row is listed |
| `TaskIndex.NarrowingShrinks` | index.php:20-37 | adding a filter never adds a row |
| `TaskIndex.CountStatus` | index.php:242-244 | a tally never exceeds the number of rows |
| `TaskIndex.TaskStatistics` | index.php:241-244 | the total is the number of rows and each tally is the multiplicity of its status among them |
| `TaskIndex.TallyIsMultiplicity` | index.php:242-244 | a tally is the number of rows with exactly that status |
| `TaskIndex.TalliesCoverTotal` | index.php:241-244 | the three tallies sum to at most the total, with equality exactly when every status is one of the three |
| `TaskIndex.DueDateLabel` | index.php:183-199 | "No due date" exactly when the date is empty or `0000-00-00`; "Overdue" exactly when the due midnight is before now; "Due soon" exactly when it is less than four days ahead |
| `TaskIndex.DueTodayIsOverdue` | index.php:186-191 | a task due today is "Overdue" once midnight has passed |
| `TaskIndex.LabelIgnoresStatus` | index.php:183-199 | completed tasks are not exempt: the label does not depend on the status |
| `TaskIndex.DescriptionCell` | index.php:175 | the cell reads "No description" exactly when the description is empty (including "0") or is that text; any other description is shown verbatim |
| `TaskView.DigitPrefix` | view.php:9 | the digits `(int)` reads: a run of digits at the start, followed by a non-digit or the end |
| `TaskView.IntCast` | view.php:9 | a negative result needs a minus sign, and a non-zero result needs a digit in the text |
| `TaskView.TaskIdParam` | view.php:9 | a positive id needs an `id` parameter holding at least one digit |
| `TaskView.DigitPrefixStops` | view.php:9 | the cast reads a digit run up to the first non-digit |
| `TaskView.NonNumericCastsToZero` | view.php:9 | an id without any digit casts to 0 |
| `TaskView.IntCastRoundTrip` | view.php:9 | the decimal rendering of an id casts back to that id |
| `TaskView.LoadTask` | view.php:9-33 | an id ≤ 0 redirects with "Invalid task ID." before any lookup. A task is shown exactly when the id is positive, the store answers and a row has that id. The shown task is that row. "Error loading task." is the outcome exactly when the id is positive and the driver throws, and "Task not found." exactly when the store answers without the row |
| `TaskView.NonNumericIdIgnoresStore` | view.php:9-13 | a non-numeric id gives the same redirect whatever the table holds and whether the store fails |
| `TaskView.LinkShowsRow` | view.php:9-30 | the link `view.php?id=<id>` of a stored row shows that row |
| `TaskView.PriorityBadgeClass` | view.php:38-45 | total: grey exactly for a value that is not a priority |
| `TaskView.StatusBadgeClass` | view.php:47-54 | total: grey exactly for a value other than In Progress and Completed |
| `TaskView.StatusIcon` | view.php:56-63 | total: the question mark exactly for a value that is not a status |
| `TaskView.PriorityIcon` | view.php:65-72 | total: the dash exactly for a value other than Low and High |
| `TaskView.LookupsDistinguishValues` | view.php:38-72 | distinct priorities get distinct badges, and distinct statuses distinct icons |
| `TaskView.FallbacksCoincide` | view.php:47-72 | an unknown status looks like Pending, and an unknown priority's icon is Medium's |
| `TaskView.DueDateShown` | view.php:167 | the due-date block appears exactly when the date is set and is not "", "0" or `0000-00-00`; it is defined as the list page's rule `HasDueDate` |
| `TaskView.LastUpdatedOnlyAfterEdit` | view.php:242 | "Last Updated" is hidden while both timestamps are equal and shown once they differ |
| `TaskView.MarkCompleteShown` | view.php:273 | as written: every validated status shows the button, and a task that hides it carries the page's unknown-status icon |
| `TaskView.MarkCompleteShownIntended` | view.php:273 | the intended test hides the button exactly for the tasks the page shows with the completed icon and the green badge |
| `TaskView.Classify` | view.php:172-198 | "Overdue by N" exactly when the due midnight has passed, with N the whole days elapsed; a warning exactly when it is under four days ahead; "Due today!" exactly within the first day; otherwise N is at least 4 |
| `TaskView.UrgencyAlert` | view.php:167-199 | as written: no alert exactly when the date is not shown or the status is lowercase `completed` |
| `TaskView.UrgencyAlertIntended` | view.php:178 | the same block exempting status `Completed` |
| `TaskView.DueTodayOverdueByZero` | view.php:179-183 | a task due today reads "Overdue by 0 days" after midnight |
| `TaskView.DueTomorrowReadsToday` | view.php:184-188 | a task due tomorrow reads "Due today!" |
| `TaskView.PluralSuffix` | view.php:182 | the day count is followed by "s" exactly when it is not 1 |
| `TaskView.DaysTextDeterminesCount` | view.php:182-196 | the "N day(s)" text determines N |
| `TaskView.UrgencyTextReadsBack` | view.php:178-198 | equal messages come from the same branch (the two "Due in" alerts share their wording) and carry the same number of days |
| `TaskView.ValidatedTasksNeverExempt` | view.php:178 | as written, a validated task with a due date always gets its alert and its Mark Complete button |
| `TaskView.IntendedExemptsExactlyCompleted` | view.php:178 | with the intended test, exactly the Completed tasks lose the alert and the button |
| `TaskCreate.SanitizedForm` | create.php:14-19 | no field of the posted form holds a raw `<`, `>`, `"` or `'`, and a missing title or due date is empty |
| `TaskCreate.NewRow` | create.php:29-35 | the inserted row has the new id, both timestamps equal to the insertion time, and a due date that is NULL exactly when the form's is empty |
| `TaskCreate.DueDateValue` | create.php:33 | NULL exactly for an empty due date, otherwise the date verbatim |
| `TaskCreate.AcceptedFormWellFormed` | create.php:22-37 | a form the validator accepts yields a row that passes the checks, with equal timestamps and a NULL or calendar due date |
| `TaskCreate.ZeroDueDateStoredAsNull` | create.php:33 | a due date "0" passes validation and is stored as NULL |
| `TaskCreate.EscapingCountsTowardsTitleLimit` | create.php:15-22 | 64 typed `<` grow to 256 bytes and are refused as too long |
| `TaskCreate.Submit` | create.php:24-46 | a row is appended, and the "Task created successfully!" success flash stored, only with no errors and a successful execute. Otherwise the table and the session are unchanged and the errors say why, with the texts the page lists. Well-formed tables stay well formed |
| `TaskCreate.HandleCreate` | create.php:6-49 | a GET keeps the defaults and changes nothing. A POST validates the sanitised fields, and inserts and stores the success flash only when they pass. The listed texts are the validator's messages in order, or "Error creating task. Please try again." when execute fails, or "Database error: " followed by the driver's message when it throws |
| `TaskCreate.FormErrorMessagesDistinct` | create.php:40-45 | two validation or INSERT errors of the same kind are listed with the same text only when they are the same error, so a driver error's text carries the driver's message |
| `EnvLoader.IndexOf` | env_loader.php:20-21 | the first position of `=`, or the length when there is none |
| `EnvLoader.ParseLine` | env_loader.php:15-26 | nothing exactly for a comment or a line without `=`. Otherwise the key holds no `=` and no surrounding whitespace, and the value no surrounding quotes |
| `EnvLoader.SplitAtFirstEquals` | env_loader.php:21 | only the first `=` splits; the rest is the value |
| `EnvLoader.QuotedValueUnwrapped` | env_loader.php:22-26 | a value between quotes comes out without them |
| `EnvLoader.Step` | env_loader.php:15-30 | one line stops loading exactly when it names the empty key, and never unsets a variable |
| `EnvLoader.ApplyLines` | env_loader.php:13-32 | the loop never unsets a variable, and when it stops early the empty name has been stored |
| `EnvLoader.Environment.LoadEnv` | env_loader.php:6-33 | a missing file fails before anything is set. Otherwise every line is applied in order: `$_ENV` ends as `ApplyLines` of the old variables, loading passes exactly when no key was empty, and an empty key ends it with the invalid-name failure |
| `EnvLoader.LastLineWins` | env_loader.php:29-30 | the last line naming a key gives its value, and keys no line names keep theirs |
| `EnvLoader.EmptyKeyStops` | env_loader.php:29-30 | an entry with an empty key is stored, and loading stops there |
| `EnvLoader.IgnoredLinesChangeNothing` | env_loader.php:15-20 | comments and lines without `=` change nothing |
| `TaskScript.PriorityRank` | js/script.js:120-125 | High, Medium and Low rank 3, 2 and 1; anything else ranks 0 |
| `TaskScript.PriorityRanksOrdered` | js/script.js:121 | the ranks order Low < Medium < High |
| `TaskScript.NoDueDateSortsAsLastDay` | js/script.js:114-118 | "No due date" sorts as 9999-12-31 |
| `TaskScript.BaseKey` | js/script.js:114-129 | priorities rank from 0 to 3, with 0 only for a value that is not a priority; columns other than the date and the priority sort by the collation key |
| `TaskScript.SortKeyOrders` | js/script.js:110-130 | one row sorts before another exactly as their base keys compare, reversed when the sort is descending |
| `TaskScript.SortRows` | js/script.js:110-130 | the sorted rows are ordered by the key and are a permutation of the input |
| `TaskScript.DescendingIsNonIncreasing` | js/script.js:117-129 | a descending sort never has the column's value increase along the table |
| `TaskScript.SortableTable.AppendChild` | js/script.js:133 | the row moves to the end of the body |
| `TaskScript.SortableTable.AppendAll` | js/script.js:133 | appending each sorted row leaves the body in exactly their order |
| `TaskScript.SortableTable.ClickHeader` | js/script.js:103-140 | the body becomes the old rows sorted by the clicked column, with no row lost or added. The sort is ascending exactly when `data-order` was `asc`, so the first click sorts descending. `data-order` then flips, and only this header's sort class is set, matching the new order |
| `TaskScript.SortableTable.FlipHeader` | js/script.js:136-140 | `data-order` of the clicked header flips between `asc` and `desc`, and the sort class names the new order; the body is untouched |
| `TaskScript.Lower` | js/script.js:148-153 | `toLowerCase` maps A-Z to a-z and leaves other characters alone |
| `TaskScript.RowMatches` | js/script.js:152-155 | a row matches exactly when the lowercased term occurs at some position of its lowercased title or description |
| `TaskScript.EmptyTermShowsAll` | js/script.js:147-160 | an empty term shows every row |
| `TaskScript.SearchIgnoresCase` | js/script.js:148-153 | terms that lowercase alike show the same rows |
| `TaskScript.TaskList.Search` | js/script.js:147-160 | no row is removed or moved, and a row is shown exactly when its lowercased title or description contains the lowercased term |
| `TaskScript.CounterClassFor` | js/script.js:71-82 | as written: the warning exactly when fewer than 100 characters remain, and never the danger class |
| `TaskScript.IntendedCounterClassFor` | js/script.js:71-82 | danger under 50 characters left, warning from 50 to 99, muted from 100 |
| `TaskScript.CounterDiffersOnlyNearLimit` | js/script.js:71-82 | the two differ exactly when fewer than 50 characters remain |
| `TaskScript.DueDateValidity` | js/script.js:47-60 | the field is refused exactly when the chosen date is before today's midnight |

## Left out

- TaskCreate.FormErrorMessagesDistinct: compares errors of the same kind only. That a "Database error: " text never equals a fixed message is not stated, because the proof would have to unfold every long message literal.
- TaskView.LoadTask: models the intended `redirect_with_message`, not the undefined-function error that the commented-out include (view.php:4) causes at view.php:12. The page also declares its own `get_priority_badge`, `get_status_badge` and `format_date` (view.php:38, 47, 74), so restoring that include would itself stop PHP with a redeclaration error. The intended redirect is a reading of the code, not a fix one line away.
- Markup, Bootstrap classes on the list page, tooltips, modals, alert auto-hiding and animations. They are rendering only.
- The mysqli connection and the SQL engine. The table is a sequence of rows, `LIKE '%v%'` is substring containment, and `ORDER BY created_at DESC` is left to the store. `Select` keeps table order.
- `LIKE` wildcards inside a search value (`%` and `_` typed by the user) are not interpreted. Collation-dependent case folding is not modelled.
- `config/database.php` and `health.php` are not part of this model.
- `format_date` and `DateTime`/`strtotime`/`date()` formatting, and time zones. A due date is a given day number and "now" is given seconds. `DateTime` parsing of arbitrary strings is not modelled.
- PhpStrings.HtmlSpecialChars: the input is taken to be valid UTF-8 and the runtime PHP 8.1 or later. There, each invalid UTF-8 sequence becomes U+FFFD (`ENT_SUBSTITUTE`), and before 8.1 the whole result is "" and single quotes are not escaped. The model copies every byte other than the five specials unchanged.
- TaskHelpers.SanitizeInput: inherits that assumption. On invalid UTF-8 input, the decode round trip and the byte lengths that the 255 and 1000 limits see differ from PHP's.
- `random_bytes` and the constant-time comparison of `hash_equals`. The fresh token is a parameter and the comparison is equality.
- `header()` and `exit()` in `redirect_with_message`. A redirect is a `Page` value.
- The `file()` and `putenv` I/O in `loadEnv`.
  - The file's existence and its lines (after FILE_IGNORE_NEW_LINES and FILE_SKIP_EMPTY_LINES) are parameters.
  - `putenv` matters only where it throws: a key that trims to "" stops the loader.
- TaskView.IntCast: reads leading whitespace, an optional sign and a digit run, as PHP does (so "0x1A" casts to 0). Exponent forms, which PHP reads as numbers ("1e3" casts to 1000), and integer overflow are not modelled.
- `localeCompare` and `new Date` in the page script are the parameters `collate` and `dateValue`, each a total key on strings. The sorted text is the cell's whole `textContent`: `format_date`'s `M d, Y` rendering, with "Overdue" or "Due soon" run on after it for exactly the rows the list page highlights (index.php:190-196). `new Date` cannot parse those texts, so the comparator returns NaN for them and the browser's order of the highlighted rows is not captured by the model.
- TaskScript.SortRows: `Array.prototype.sort` is modelled by a stable insertion sort. Stability is not stated in the contract.
- A priority cell holding a name of `Object.prototype` (such as "constructor") makes the JavaScript lookup return a function rather than a rank. This is not modelled.
- TaskScript.Lower: `toLowerCase` is modelled on ASCII letters only.
- TaskScript.DueDateValidity: takes the chosen date already converted to milliseconds. JavaScript reads "YYYY-MM-DD" as UTC midnight while today's midnight is local, so near midnight the comparison depends on the time zone. This is not modelled.
- Missing `$_POST` fields read as "". The PHP 8 deprecation notice for `trim(null)` is not modelled.
- The button-disabling submit handler and the alert timer in the page script are not modelled.

## Findings

| source | as written | input that shows it | evidently intended | confidence | as-written member | corrected member |
|---|---|---|---|---|---|---|
| view.php:178, 273 | the urgency alert and the Mark Complete button are skipped only for status `completed` in lowercase | any validated task with status `Completed` and a due date: it still shows "Overdue by N days" and the button | exempt status `Completed`, the value the validator admits (includes/functions.php:85) | high, not executed | `TaskView.ValidatedTasksNeverExempt` | `TaskView.IntendedExemptsExactlyCompleted` |
| js/script.js:75-78 | `remaining < 100` is tested before `remaining < 50`, so the danger class is never chosen | a description of 980 characters (20 remaining) gets the warning class | danger under 50 remaining, warning from 50 to 99 | high, not executed | `TaskScript.CounterClassFor` | `TaskScript.IntendedCounterClassFor` |
