# Live blog journal: a verified model

The live blog is a single-page journal. The page shows a column of entries.
Only the last entry is active. It is an open text area that the writer types
into. Pressing Enter when the caret's line holds text before the caret commits the entry: it becomes
read-only text, and a fresh empty entry opens below it. Shift+Enter inserts
a line break instead.

An entry is frozen at the moment it first receives text. From then on its
date and time lines show that moment. Before that they follow the clock. The
date line is left blank when an entry falls on the same calendar day as the
entry above it. Clicking a date line cycles through the date formats;
clicking a time line cycles through the time formats.

This project models that logic, all of which lives in `src/App.jsx`, and
proves properties of it:

- `wrappers.dfy`: `Option`, which stands for JavaScript's `null`.
- `text.dfy` (module `Text`): the JavaScript string built-ins the app relies on:
  - `String(n)` on integers below 10^21, which covers every value a `Date` getter returns;
  - `padStart`;
  - `substring` with clamping;
  - `split` with a one-character separator;
  - `trim`, with the ECMAScript white-space and line-terminator characters.
- `formats.dfy` (module `Formats`):
  - the two date formats and the two time formats;
  - `isSameDay`;
  - the 12-hour conversion.

  A moment in time is an abstract `Instant` record holding what the `Date`
  getters return.
- `preferences.dfy` (module `Preferences`): `useFormatPreference`.
  - The remembered index is a `FormatPreference` object.
  - `cycleFormat` updates that object in place.
  - There are lemmas about repeated cycling.
- `entries.dfy` (module `Entries`): the entry records.
  - The initial state.
  - `handleInputChange` and `handleCommit` as functions on the list.
  - The list invariant: ids are positions, and the last entry is the only active one.
  - Arbitrary runs of input and commit events.
- `keyguard.dfy` (module `KeyGuard`): the Enter-key handler `handleKeyDown` and a characterisation of when it commits.
- `display.dfy` (module `Display`):
  - `getEntryDate`;
  - the previous entry's date;
  - `shouldShowDate`;
  - the date and time lines of an entry.
- `journal.dfy` (module `Journal`): a session as the user drives it.
  - Only the uncommitted entry renders a text area.
  - That entry is always the last one.
  - So typing and key presses always go to the last entry.
  - The shape of every reachable list is proved, and so is the order of the committed texts.
- `app.dfy` (module `AppState`): the `App` component's state as a class.
  - It holds the entries and the two preferences.
  - Its handler methods assign the results of the functions above.

Time never comes from a clock. Every operation that reads the current time
takes it as a parameter `now`.

## Model

| member | source | states |
|---|---|---|
| Text.DecimalString | src/App.jsx:6 | `String(n)` for a day number is a non-empty string of decimal digits, one digit exactly when `n < 10`, at most two below 100 |
| Text.DecimalStringDenotes | src/App.jsx:6 | the numeral denotes `n` and has no leading zero |
| Text.DecimalStringInjective | src/App.jsx:6 | distinct numbers have distinct numerals |
| Text.IntString | src/App.jsx:6 | `String(year)` is non-empty and starts with a minus sign exactly for negative years; `IntStringReads` gives the value of the digits |
| Text.IntStringReads | src/App.jsx:6 | after the sign, the digits of `String(year)` denote the absolute value of the year, with no leading zero |
| Text.IntStringInjective | src/App.jsx:6 | distinct years print differently |
| Text.PadStart | src/App.jsx:9-10 | `padStart(width, fill)` keeps the string as its suffix, fills only in front, and reaches the width when it is shorter |
| Text.TwoDigits | src/App.jsx:9-10 | the padded month, day, hours, minutes and seconds are digit strings of exactly two characters below 100 |
| Text.TwoDigitsDenotes | src/App.jsx:9-10 | the padded string still denotes the number |
| Text.TwoDigitsInjective | src/App.jsx:18-20 | distinct numbers pad to distinct strings |
| Text.Split | src/App.jsx:153 | `split('\n')` gives at least one piece, no piece contains the separator, and joining the pieces with it gives back the string |
| Text.LastPieceIsAfterLast | src/App.jsx:153 | `pop()` of the split gives the text after the last line break, or the whole text when there is none |
| Text.AfterLastUnique | src/App.jsx:153 | the text after the last separator is uniquely determined |
| Text.Prefix | src/App.jsx:152 | `substring(0, end)` is a prefix whose length is `end` clamped into the string's bounds |
| Text.TrimStart | src/App.jsx:155 | removes exactly the leading white space: all removed characters are white space and the rest does not start with white space |
| Text.TrimEnd | src/App.jsx:155 | removes exactly the trailing white space, in the same sense |
| Text.Trim | src/App.jsx:155 | `trim()` is no longer than the string and neither starts nor ends with white space; `TrimNonEmptyIff` says when it is empty |
| Text.TrimNonEmptyIff | src/App.jsx:155 | `trim().length > 0` holds exactly when the string has a character that is not white space |
| Formats.MonthNamesDistinct | src/App.jsx:5 | the twelve month names are distinct, three letters long and without a space or a slash |
| Formats.LongDate | src/App.jsx:4-7 | the first date format starts with the month name and a space and ends with the year; `LongDateReads` gives the fields |
| Formats.LongDateReads | src/App.jsx:4-7 | read back, the label gives the month name, the day of the month (one digit below 10), ", " and the year |
| Formats.NumericDate | src/App.jsx:8-13 | the second date format has slashes at positions 2 and 5 and ends with the year; `NumericDateReads` gives the fields |
| Formats.NumericDateReads | src/App.jsx:8-13 | read back, the two-digit fields give the month counted from 1 and the day of the month |
| Formats.FormatDate | src/App.jsx:3-14 | `dateFormats[index](d)` ends with the year in both formats, and the label shows which format made it |
| Formats.LongDateIdentifiesDay | src/App.jsx:4-7 | two dates get the same "Mon D, YYYY" label exactly when they fall on the same calendar day |
| Formats.NumericDateIdentifiesDay | src/App.jsx:8-13 | two dates get the same "MM/DD/YYYY" label exactly when they fall on the same calendar day |
| Formats.IsSameDay | src/App.jsx:51-56 | false when either date is missing, otherwise true exactly when year, month and day agree |
| Formats.IsSameDaySymmetric | src/App.jsx:51-56 | `isSameDay` is symmetric |
| Formats.IsSameDayTransitive | src/App.jsx:51-56 | `isSameDay` is transitive |
| Formats.DateLabelMatchesSameDay | src/App.jsx:3-14 | in either date format, two labels are equal exactly when `isSameDay` holds |
| Formats.Clock24 | src/App.jsx:17-22 | the 24-hour label is eight characters with colons at positions 2 and 5; `Clock24Reads` gives the fields |
| Formats.Clock24Reads | src/App.jsx:17-22 | read back, the three two-digit fields give the hours, the minutes and the seconds, in that order |
| Formats.Hour12 | src/App.jsx:28 | `(hours % 12) \|\| 12` lies in 1..12 and is 12 exactly at midnight and noon |
| Formats.Meridiem | src/App.jsx:27 | the suffix is "AM" or "PM", and "PM" exactly from 12 o'clock on |
| Formats.Hour12RoundTrip | src/App.jsx:24-28 | the 12-hour reading and its suffix give back the hour; the suffix is PM exactly from 12 on |
| Formats.Clock12 | src/App.jsx:23-30 | the 12-hour label ends with a space and the suffix of the hour; `Clock12Reads` gives the fields |
| Formats.Clock12Reads | src/App.jsx:23-30 | read back, the label gives the 12-hour reading unpadded, then two-digit minutes and seconds, then the suffix |
| Formats.FormatTime | src/App.jsx:16-31 | `timeFormats[index](d)`: only the 24-hour label is eight characters long, so the label shows which format made it |
| Formats.Clock24IdentifiesTime | src/App.jsx:17-22 | two 24-hour labels are equal exactly when hours, minutes and seconds agree |
| Formats.Clock12IdentifiesTime | src/App.jsx:23-30 | two 12-hour labels are equal exactly when hours, minutes and seconds agree |
| Formats.TimeLabelMatchesClockTime | src/App.jsx:16-31 | in either time format, two labels are equal exactly when the clock times agree |
| Preferences.FormatCount | src/App.jsx:44 | the rotation for "dateFormat" has as many formats as there are date formats; any other key gets the time formats |
| Preferences.NextFormatIndex | src/App.jsx:45 | `(prev + 1) % (maxIndex + 1)` stays in range, moves one step forward, and wraps to 0 after the last format |
| Preferences.CycleStepsAdvance | src/App.jsx:43-46 | after `k` clicks the index is `(start + k) % n` |
| Preferences.CycleReturnsToStart | src/App.jsx:43-46 | `n` clicks bring the label back to the format it started with |
| Preferences.CycleReachesEveryFormat | src/App.jsx:43-46 | every format is reached in fewer than `n` clicks |
| Preferences.FormatPreference.constructor | src/App.jsx:34-37 | the hook starts at the given in-range index |
| Preferences.FormatPreference.CycleFormat | src/App.jsx:43-46 | `cycleFormat` replaces the index with the next one and keeps it in range |
| Entries.InitialEntries | src/App.jsx:193-195 | the initial state is one entry with id 0: active, empty, not committed and not frozen |
| Entries.InitialEntriesWellFormed | src/App.jsx:193-195 | the initial list is a single empty, active entry with id 0 and satisfies the list invariant |
| Entries.ExactlyOneActive | src/App.jsx:193-195 | in a well-formed list exactly one entry is active: the last |
| Entries.ReceiveText | src/App.jsx:200-205 | the addressed entry gets the text and keeps id, activity and commit state; it is frozen at `now` by its first non-empty text, and a freeze is never undone or moved |
| Entries.InputChange | src/App.jsx:197-209 | the length and every entry with another id are unchanged; the addressed entry gets the new text and keeps its id, activity and commit state |
| Entries.InputFreezesOnce | src/App.jsx:200-205 | an unfrozen entry receiving non-empty text is frozen at `now`; empty text does not freeze it; a frozen entry keeps its freeze time, even when cleared |
| Entries.InputChangeWellFormed | src/App.jsx:197-209 | an input event keeps the list invariant |
| Entries.Commit | src/App.jsx:211-223 | one entry more; earlier entries keep their place, id, text and freeze state; all are inactive; exactly the addressed entry becomes committed; the new last entry is fresh with id equal to the old length |
| Entries.CommitWellFormed | src/App.jsx:211-223 | a commit keeps the list invariant |
| Entries.CommitCountsOnce | src/App.jsx:213-221 | the number of committed entries grows by one when an uncommitted entry is committed, and by none otherwise |
| Entries.RunWellFormed | src/App.jsx:197-223 | any run of input and commit events keeps the list invariant |
| Entries.ReachableWellFormed | src/App.jsx:193-223 | after any events from the initial state, ids equal positions and the last entry is the only active one |
| Entries.RunAppendOnly | src/App.jsx:197-223 | the list grows by one per commit; existing entries keep their id and place; a freeze time never changes; a committed entry stays committed |
| KeyGuard.HandleKeyDown | src/App.jsx:148-159 | the default action is suppressed exactly for Enter without Shift; a commit is requested only then |
| KeyGuard.Caret | src/App.jsx:152 | the end of `substring(0, selectionStart)`: the text before the caret is exactly the prefix up to it, and it is `selectionStart` clamped into the text's bounds |
| KeyGuard.CurrentLine | src/App.jsx:152-153 | `split('\n').pop()` of the text before the caret is the caret's line: no line break in it, and a line break or the start of the text right before it |
| KeyGuard.CommitIff | src/App.jsx:148-159 | a commit is requested exactly for Enter without Shift when a non-white-space character lies before the caret with no line break between it and the caret |
| KeyGuard.ShiftEnterNeverCommits | src/App.jsx:149 | Shift+Enter neither commits nor suppresses the line break |
| KeyGuard.BlankLineNeverCommits | src/App.jsx:155-157 | a line that is blank up to the caret never commits |
| Display.GetEntryDate | src/App.jsx:58-64 | the freeze time when set, otherwise the current time (`UnfrozenEntryFollowsNow`, `FrozenLinesIgnoreNow`) |
| Display.PreviousEntryDate | src/App.jsx:228-229 | `null` exactly for the first entry, otherwise the date of the entry above |
| Display.ShouldShowDate | src/App.jsx:111 | shown when there is no previous date, otherwise exactly when the two dates fall on different calendar days |
| Display.DateLine | src/App.jsx:113-117 | the line is a no-break space exactly when the date is hidden, and the label in the chosen format otherwise |
| Display.TimeLine | src/App.jsx:118-122 | the label of the freeze time in the chosen format, or of the current time while the entry is not frozen |
| Display.FirstEntryShowsDate | src/App.jsx:111 | the first entry always shows its date |
| Display.ShowsDateIffLabelChanges | src/App.jsx:110-117 | a later entry shows its date exactly when its label differs from the previous entry's, in the chosen format |
| Display.FrozenLinesIgnoreNow | src/App.jsx:58-64 | for a frozen entry whose predecessor, if any, is frozen too, the date and time lines do not depend on the current time, and the time line shows the freeze time |
| Display.UnfrozenEntryFollowsNow | src/App.jsx:58-64 | an entry not yet frozen is dated by the current time |
| Journal.Act | src/App.jsx:139-159 | one user action on the active entry adds at most one entry |
| Journal.Replay | src/App.jsx:139-159 | replaying actions never shrinks the list |
| Journal.InitialSettled | src/App.jsx:193-195 | the initial list has the session shape |
| Journal.ActCommitsVisibleText | src/App.jsx:148-157 | an action adds an entry only when it is Enter without Shift and the active entry holds visible text |
| Journal.TypeKeepsSettled | src/App.jsx:197-209 | typing into the active entry keeps the session shape |
| Journal.CommitKeepsSettled | src/App.jsx:211-223 | committing an active entry with visible text keeps the session shape |
| Journal.ActKeepsSettled | src/App.jsx:197-223 | every user action keeps the session shape |
| Journal.ReplayKeepsSettled | src/App.jsx:197-223 | any series of user actions keeps the session shape |
| Journal.SessionSettled | src/App.jsx:193-223 | after any session only the last entry is active and uncommitted; every earlier entry is committed, frozen and holds visible text |
| Journal.CommittedLinesIgnoreNow | src/App.jsx:90-111 | once committed, an entry's date and time lines no longer follow the clock |
| Journal.CommittedTextsAgree | src/App.jsx:161-169 | the committed texts depend only on which entries are committed and what they say |
| Journal.TypeKeepsCommittedTexts | src/App.jsx:197-209 | typing changes no committed text |
| Journal.CommitAppendsCommittedText | src/App.jsx:211-223 | a commit appends the active entry's text to the committed texts |
| Journal.ActAppendsCommittedText | src/App.jsx:197-223 | committed texts are never changed or reordered; a commit appends exactly the active entry's text |
| Journal.ReplayExtendsCommittedTexts | src/App.jsx:197-223 | the texts committed so far stay a prefix of the committed texts after any later actions |
| Journal.ReplayConcat | src/App.jsx:139-159 | replaying two series of actions in turn is replaying them joined |
| Journal.EnterAfterVisibleCharCommits | src/App.jsx:148-157 | Enter at the end of a text that ends in a visible character commits |
| Journal.TypeIntoFreshEntry | src/App.jsx:197-209 | filling the fresh entry freezes it at the time of typing and changes nothing else |
| Journal.EnterAtEndCommits | src/App.jsx:148-157 | Enter at the end of such a text commits that text and opens a fresh entry, keeping every freeze time |
| Journal.WriteAndCommit | src/App.jsx:197-223 | writing a text and pressing Enter commits exactly that text, frozen when it was typed |
| Journal.FirstEntryScenario | src/App.jsx:193-223 | writing a first entry commits it and opens entry 1 |
| Journal.TwoEntriesCommitted | tests/app.test.js:47-65 | writing two entries one after the other commits both texts, in order |
| Journal.TwoEntriesFrozen | src/App.jsx:197-223 | writing two entries freezes each at its own time and opens entry 2 |
| Journal.TwoEntriesScenario | src/App.jsx:193-223 | writing two entries commits both texts in order, each with its own freeze time, with a fresh entry below |
| Journal.TestTextsEndVisibly | tests/app.test.js:47-65 | the two texts the browser test commits end in visible characters, so the two-entry scenario applies to them |
| Journal.ShiftEnterKeepsEntries | src/App.jsx:148-149 | Shift+Enter leaves the list unchanged and lets the browser insert the line break |
| AppState.App.constructor | src/App.jsx:189-195 | the app starts with the initial list and the two preferences at their start indices |
| AppState.App.HandleInputChange | src/App.jsx:197-209 | replaces the entries with the input update and keeps the list invariant |
| AppState.App.HandleCommit | src/App.jsx:211-223 | replaces the entries with the commit update and keeps the list invariant |
| AppState.App.HandleKeyDown | src/App.jsx:148-159 | suppresses the default exactly for Enter without Shift, commits the active entry when the guard says so, and keeps the session shape |
| AppState.App.HandleInput | src/App.jsx:139-141 | the active entry's input event updates it and keeps the session shape |
| AppState.App.CycleDateFormat | src/App.jsx:43-46 | the date preference moves to the next date format |
| AppState.App.CycleTimeFormat | src/App.jsx:43-46 | the time preference moves to the next time format |

## Left out

- React rendering, JSX and the text area element, including auto-resize. Only the text of the date and time lines is modelled (`Display.DateLine`, `Display.TimeLine`).
- The `setInterval` timers that refresh the active entry's date and time lines every 250 ms and keep the text area focused every 100 ms. Each evaluation takes the current time as `now` instead.
- In the source, every entry reads the clock on its own. The model uses one `now` per render.
- An entry that is deactivated before it was ever frozen keeps the last label the 250 ms refresh gave it while it was active; that stored label is not modelled. No user session reaches such an entry (`Journal.SessionSettled`).
- `localStorage` persistence and `parseInt` of a stored index. The preference starts from an index in range.
- The `matchMedia` colour-theme hook. It is a browser API with no logic.
- `Date` itself is not modelled:
  - an `Instant` is the tuple of values its getters return;
  - time zones are not modelled;
  - days that do not exist in a month (such as 31 February) are not excluded.
- String lengths count characters, not UTF-16 code units. `selectionStart` is compared against that length.
- The keystroke-cadence styling is not part of `src/App.jsx`, so there is nothing of it to model.
- The browser inserts the line break after Shift+Enter. That is the browser's action, not the app's. The model covers the app's part: it does not suppress the default and does not commit (`Journal.ShiftEnterKeepsEntries`).
- IntString: JavaScript writes numbers of 10^21 and above in exponential notation; the model writes every integer in decimal. The two agree on every year a `Date` can hold (at most 275760 in magnitude).
- DecimalString: the same bound as `IntString`; the days of the month and the 12-hour readings it is applied to are at most 31.
- Preferences.FormatPreference.constructor: it takes the starting index as a parameter. It does not read it from storage.
