/**
 * The `App` component's state: the list of entries and the two format
 * preferences, updated in place by the handlers the rendered entries call.
 */
module AppState {
  import opened Formats
  import opened Preferences
  import opened Entries
  import opened KeyGuard
  import opened Journal

  class App {
    var entries: seq<Entry>
    const datePreference: FormatPreference
    const timePreference: FormatPreference

    ghost predicate Valid()
      reads this, datePreference, timePreference
    {
      && WellFormed(entries)
      && datePreference != timePreference
      && datePreference.key == "dateFormat" && datePreference.Valid()
      && timePreference.key == "timeFormat" && timePreference.Valid()
    }

    /** The first render: a single fresh entry, and each preference at its stored or default index. */
    constructor (dateIndex: nat, timeIndex: nat)
      requires dateIndex < DateFormatCount && timeIndex < TimeFormatCount
      ensures Valid() && Settled(entries)
      ensures entries == InitialEntries()
      ensures datePreference.formatIndex == dateIndex && timePreference.formatIndex == timeIndex
    {
      entries := InitialEntries();
      datePreference := new FormatPreference("dateFormat", dateIndex);
      timePreference := new FormatPreference("timeFormat", timeIndex);
      InitialSettled();
    }

    /** `handleInputChange(id, text)`, the input event arriving at `now`. */
    method HandleInputChange(id: nat, text: string, now: Instant)
      requires Valid()
      modifies this
      ensures Valid()
      ensures entries == InputChange(old(entries), id, text, now)
    {
      InputChangeWellFormed(entries, id, text, now);
      entries := InputChange(entries, id, text, now);
    }

    /** `handleCommit(id)`. */
    method HandleCommit(id: nat)
      requires Valid()
      modifies this
      ensures Valid()
      ensures entries == Commit(old(entries), id)
    {
      CommitWellFormed(entries, id);
      entries := Commit(entries, id);
    }

    /**
     * The active entry's `handleKeyDown`: the text area holds the entry's
     * text, and the handler commits the entry when the key handler says so.
     */
    method HandleKeyDown(key: string, shiftKey: bool, selectionStart: int) returns (preventDefault: bool)
      requires Valid()
      modifies this
      ensures Valid()
      ensures entries == Act(old(entries), PressKey(key, shiftKey, selectionStart))
      ensures preventDefault <==> key == "Enter" && !shiftKey
      ensures Settled(old(entries)) ==> Settled(entries)
    {
      ghost var before := entries;
      ghost var after := Act(before, PressKey(key, shiftKey, selectionStart));
      var active := entries[|entries| - 1];
      var outcome := KeyGuard.HandleKeyDown(key, shiftKey, active.text, selectionStart);
      preventDefault := outcome.preventDefault;
      if outcome.commit {
        HandleCommit(active.id);
      }
      assert entries == after;
      if Settled(before) {
        ActKeepsSettled(before, PressKey(key, shiftKey, selectionStart));
      }
    }

    /** The active entry's input event. */
    method HandleInput(text: string, now: Instant)
      requires Valid()
      modifies this
      ensures Valid()
      ensures entries == Act(old(entries), Type(text, now))
      ensures Settled(old(entries)) ==> Settled(entries)
    {
      ghost var before := entries;
      HandleInputChange(entries[|entries| - 1].id, text, now);
      if Settled(before) {
        ActKeepsSettled(before, Type(text, now));
      }
    }

    /** A click on a date line: the next date format. */
    method CycleDateFormat()
      requires Valid()
      modifies datePreference
      ensures Valid()
      ensures datePreference.formatIndex == NextFormatIndex(old(datePreference.formatIndex), DateFormatCount)
    {
      datePreference.CycleFormat();
    }

    /** A click on a time line: the next time format. */
    method CycleTimeFormat()
      requires Valid()
      modifies timePreference
      ensures Valid()
      ensures timePreference.formatIndex == NextFormatIndex(old(timePreference.formatIndex), TimeFormatCount)
    {
      timePreference.CycleFormat();
    }
  }
}
