/**
 * What each rendered entry shows above its text: the date line, which is
 * left blank when the entry falls on the same day as the entry before it,
 * and the time line. Both read the entry's date: its freeze time, or the
 * current time while it has none.
 */
module Display {
  import opened Wrappers
  import opened Formats
  import opened Entries

  /** `getEntryDate(entry)`, with `now` standing for `new Date()`. */
  function GetEntryDate(entry: Entry, now: Instant): (r: Instant)
    ensures entry.frozenAt.Some? ==> r == entry.frozenAt.value
    ensures entry.frozenAt.None? ==> r == now
  {
    if entry.frozenAt.Some? then entry.frozenAt.value else now
  }

  /** `previousEntryDate` for the entry at `index`: `null` for the first entry. */
  function PreviousEntryDate(entries: seq<Entry>, index: nat, now: Instant): (r: Option<Instant>)
    requires index < |entries|
    ensures r.None? <==> index == 0
    ensures index > 0 ==> r == Some(GetEntryDate(entries[index - 1], now))
  {
    if index > 0 then Some(GetEntryDate(entries[index - 1], now)) else None
  }

  /** `!previousEntryDate || !isSameDay(entryDate, previousEntryDate)`. */
  function ShouldShowDate(entryDate: Instant, previousEntryDate: Option<Instant>): (r: bool)
    ensures previousEntryDate.None? ==> r
    ensures previousEntryDate.Some? ==> (r <==> !SameCalendarDay(entryDate, previousEntryDate.value))
  {
    previousEntryDate.None? || !IsSameDay(Some(entryDate), previousEntryDate)
  }

  /** Whether the entry at `index` shows its date. */
  function ShowsDate(entries: seq<Entry>, index: nat, now: Instant): bool
    requires index < |entries|
  {
    ShouldShowDate(GetEntryDate(entries[index], now), PreviousEntryDate(entries, index, now))
  }

  /** The text of the date line: the label in the chosen format, or a single no-break space. */
  function DateLine(entries: seq<Entry>, index: nat, now: Instant, dateFormatIndex: nat): (r: string)
    requires index < |entries| && dateFormatIndex < DateFormatCount
    ensures r == "\U{00A0}" <==> !ShowsDate(entries, index, now)
    ensures ShowsDate(entries, index, now) ==> r == FormatDate(dateFormatIndex, GetEntryDate(entries[index], now))
  {
    if ShowsDate(entries, index, now) then FormatDate(dateFormatIndex, GetEntryDate(entries[index], now)) else "\U{00A0}"
  }

  /** The text of the time line: the entry's date in the chosen time format. */
  function TimeLine(entries: seq<Entry>, index: nat, now: Instant, timeFormatIndex: nat): (r: string)
    requires index < |entries| && timeFormatIndex < TimeFormatCount
    ensures entries[index].frozenAt.Some? ==> r == FormatTime(timeFormatIndex, entries[index].frozenAt.value)
    ensures entries[index].frozenAt.None? ==> r == FormatTime(timeFormatIndex, now)
  {
    FormatTime(timeFormatIndex, GetEntryDate(entries[index], now))
  }

  /** The first entry always shows its date. */
  lemma FirstEntryShowsDate(entries: seq<Entry>, now: Instant)
    requires |entries| > 0
    ensures ShowsDate(entries, 0, now)
  {
  }

  /**
   * A later entry shows its date exactly when its date label, in whichever
   * format is chosen, differs from the previous entry's: no two consecutive
   * date lines ever read the same, and no day change goes unmarked.
   */
  lemma ShowsDateIffLabelChanges(entries: seq<Entry>, index: nat, now: Instant, dateFormatIndex: nat)
    requires 0 < index < |entries| && dateFormatIndex < DateFormatCount
    ensures ShowsDate(entries, index, now) <==>
      FormatDate(dateFormatIndex, GetEntryDate(entries[index], now))
        != FormatDate(dateFormatIndex, GetEntryDate(entries[index - 1], now))
  {
    DateLabelMatchesSameDay(dateFormatIndex, GetEntryDate(entries[index], now), GetEntryDate(entries[index - 1], now));
  }

  /**
   * Once an entry and the one before it are frozen, its date line and its
   * time line no longer depend on the current time.
   */
  lemma FrozenLinesIgnoreNow(entries: seq<Entry>, index: nat, now1: Instant, now2: Instant, dateFormatIndex: nat, timeFormatIndex: nat)
    requires index < |entries| && dateFormatIndex < DateFormatCount && timeFormatIndex < TimeFormatCount
    requires entries[index].frozenAt.Some?
    requires index > 0 ==> entries[index - 1].frozenAt.Some?
    ensures DateLine(entries, index, now1, dateFormatIndex) == DateLine(entries, index, now2, dateFormatIndex)
    ensures TimeLine(entries, index, now1, timeFormatIndex) == TimeLine(entries, index, now2, timeFormatIndex)
    ensures TimeLine(entries, index, now1, timeFormatIndex) == FormatTime(timeFormatIndex, entries[index].frozenAt.value)
  {
  }

  /** An entry that has not received text yet is dated by the current time. */
  lemma UnfrozenEntryFollowsNow(entries: seq<Entry>, index: nat, now: Instant, timeFormatIndex: nat)
    requires index < |entries| && timeFormatIndex < TimeFormatCount
    requires entries[index].frozenAt.None?
    ensures TimeLine(entries, index, now, timeFormatIndex) == FormatTime(timeFormatIndex, now)
  {
  }
}
