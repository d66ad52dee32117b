/**
 * The journal's list of entries and the two state updates `App` applies to
 * it: an input event on one entry (`handleInputChange`) and a commit
 * (`handleCommit`). Both replace the whole list with a new one, as the
 * functional updates passed to `setEntries` do.
 */
module Entries {
  import opened Wrappers
  import opened Formats

  /** One journal entry record. `frozenAt` is `null` until the entry first receives text. */
  datatype Entry = Entry(
    id: nat,
    text: string,
    isActive: bool,
    committed: bool,
    frozen: bool,
    frozenAt: Option<Instant>)

  /** The record a new, empty, active entry starts as. */
  function FreshEntry(id: nat): Entry {
    Entry(id, "", true, false, false, None)
  }

  /** The initial `entries` state: a single fresh entry with id 0. */
  function InitialEntries(): (r: seq<Entry>)
    ensures |r| == 1 && r[0].id == 0 && r[0].isActive
    ensures r[0].text == "" && !r[0].committed && !r[0].frozen && r[0].frozenAt.None?
  {
    [FreshEntry(0)]
  }

  /**
   * What the list always looks like: entry ids are their positions, the last
   * entry and only it is active, an entry is frozen exactly when it carries a
   * freeze time, and an entry holding text is frozen.
   */
  predicate WellFormed(entries: seq<Entry>) {
    && |entries| > 0
    && (forall i :: 0 <= i < |entries| ==> entries[i].id == i)
    && (forall i :: 0 <= i < |entries| ==> (entries[i].isActive <==> i == |entries| - 1))
    && (forall i :: 0 <= i < |entries| ==> (entries[i].frozen <==> entries[i].frozenAt.Some?))
    && (forall i :: 0 <= i < |entries| ==> |entries[i].text| > 0 ==> entries[i].frozen)
  }

  lemma InitialEntriesWellFormed()
    ensures WellFormed(InitialEntries())
    ensures |InitialEntries()| == 1 && InitialEntries()[0].isActive && InitialEntries()[0].text == ""
  {
  }

  /** Exactly one entry is active: the last one. */
  lemma ExactlyOneActive(entries: seq<Entry>)
    requires WellFormed(entries)
    ensures (set i | 0 <= i < |entries| && entries[i].isActive) == {|entries| - 1}
  {
    var active := set i | 0 <= i < |entries| && entries[i].isActive;
    assert |entries| - 1 in active;
  }

  // ---------------------------------------------------------------------------
  // Input
  // ---------------------------------------------------------------------------

  /**
   * The new record for the entry an input event is addressed to: the text is
   * replaced, and the first non-empty text freezes the entry at `now`.
   */
  function ReceiveText(entry: Entry, text: string, now: Instant): (r: Entry)
    ensures r.text == text && r.id == entry.id && r.isActive == entry.isActive && r.committed == entry.committed
    ensures entry.frozen ==> r.frozen && r.frozenAt == entry.frozenAt
    ensures !entry.frozen ==> (r.frozen <==> |text| > 0)
    ensures !entry.frozen && |text| > 0 ==> r.frozenAt == Some(now)
    ensures !entry.frozen && text == [] ==> r.frozenAt == entry.frozenAt
  {
    var updated := entry.(text := text);
    if !entry.frozen && |text| > 0 then updated.(frozen := true, frozenAt := Some(now)) else updated
  }

  /**
   * `handleInputChange(id, text)` with the current time `now`: every entry
   * whose id is `id` receives the text; all others are kept as they are.
   */
  function InputChange(entries: seq<Entry>, id: nat, text: string, now: Instant): (r: seq<Entry>)
    ensures |r| == |entries|
    ensures forall i :: 0 <= i < |entries| && entries[i].id != id ==> r[i] == entries[i]
    ensures forall i :: 0 <= i < |entries| && entries[i].id == id ==>
      && r[i].text == text
      && r[i].id == entries[i].id
      && r[i].isActive == entries[i].isActive
      && r[i].committed == entries[i].committed
  {
    seq(|entries|, i requires 0 <= i < |entries| =>
      if entries[i].id == id then ReceiveText(entries[i], text, now) else entries[i])
  }

  /**
   * Freeze-once: an unfrozen entry that receives non-empty text is frozen at
   * `now`; empty text leaves it unfrozen; a frozen entry keeps its freeze
   * time whatever text it receives, the empty text included.
   */
  lemma InputFreezesOnce(entries: seq<Entry>, id: nat, text: string, now: Instant, i: nat)
    requires i < |entries| && entries[i].id == id
    ensures var e, e' := entries[i], InputChange(entries, id, text, now)[i];
      && (!e.frozen && |text| > 0 ==> e'.frozen && e'.frozenAt == Some(now))
      && (!e.frozen && text == [] ==> !e'.frozen && e'.frozenAt == e.frozenAt)
      && (e.frozen ==> e'.frozen && e'.frozenAt == e.frozenAt)
  {
  }

  lemma InputChangeWellFormed(entries: seq<Entry>, id: nat, text: string, now: Instant)
    requires WellFormed(entries)
    ensures WellFormed(InputChange(entries, id, text, now))
  {
  }

  // ---------------------------------------------------------------------------
  // Commit
  // ---------------------------------------------------------------------------

  /**
   * `handleCommit(id)`: the entry with id `id` becomes committed, every entry
   * is deactivated, and a fresh active entry whose id is the old length is
   * appended.
   */
  function Commit(entries: seq<Entry>, id: nat): (r: seq<Entry>)
    ensures |r| == |entries| + 1
    ensures forall i :: 0 <= i < |entries| ==>
      && r[i].id == entries[i].id
      && r[i].text == entries[i].text
      && r[i].frozen == entries[i].frozen
      && r[i].frozenAt == entries[i].frozenAt
      && !r[i].isActive
      && (r[i].committed <==> entries[i].committed || entries[i].id == id)
    ensures r[|entries|] == FreshEntry(|entries|)
  {
    var updated := seq(|entries|, i requires 0 <= i < |entries| =>
      if entries[i].id == id then entries[i].(committed := true, isActive := false)
      else entries[i].(isActive := false));
    var newId := |entries|;
    updated + [FreshEntry(newId)]
  }

  lemma CommitWellFormed(entries: seq<Entry>, id: nat)
    requires WellFormed(entries)
    ensures WellFormed(Commit(entries, id))
  {
  }

  /** The positions of the committed entries. */
  function CommittedPositions(entries: seq<Entry>): set<nat> {
    set i: nat | i < |entries| && entries[i].committed
  }

  /**
   * A commit adds one committed entry when it names an entry not yet
   * committed, and none when it names a committed entry or no entry at all.
   */
  lemma CommitCountsOnce(entries: seq<Entry>, id: nat)
    requires WellFormed(entries)
    ensures |CommittedPositions(Commit(entries, id))| ==
      |CommittedPositions(entries)| + if id < |entries| && !entries[id].committed then 1 else 0
  {
    var before, after := CommittedPositions(entries), CommittedPositions(Commit(entries, id));
    var named := if id < |entries| then {id} else {};
    forall i | i in after ensures i in before + named {
      assert i < |entries|;
    }
    assert after == before + named;
    if id < |entries| && !entries[id].committed {
      assert id !in before;
    } else {
      assert before + named == before;
    }
  }

  // ---------------------------------------------------------------------------
  // Runs of events
  // ---------------------------------------------------------------------------

  /** The two events that change the list. */
  datatype Event = Input(id: nat, text: string, now: Instant) | CommitRequest(id: nat)

  function Step(entries: seq<Entry>, event: Event): seq<Entry> {
    match event
    case Input(id, text, now) => InputChange(entries, id, text, now)
    case CommitRequest(id) => Commit(entries, id)
  }

  /** The list after a sequence of events, applied in order. */
  function Run(entries: seq<Entry>, events: seq<Event>): seq<Entry>
    decreases |events|
  {
    if events == [] then entries else Run(Step(entries, events[0]), events[1..])
  }

  function CommitEvents(events: seq<Event>): nat {
    if events == [] then 0 else (if events[0].CommitRequest? then 1 else 0) + CommitEvents(events[1..])
  }

  lemma {:induction false} RunWellFormed(entries: seq<Entry>, events: seq<Event>)
    requires WellFormed(entries)
    ensures WellFormed(Run(entries, events))
    decreases |events|
  {
    if events != [] {
      match events[0] {
        case Input(id, text, now) => InputChangeWellFormed(entries, id, text, now);
        case CommitRequest(id) => CommitWellFormed(entries, id);
      }
      RunWellFormed(Step(entries, events[0]), events[1..]);
    }
  }

  /**
   * From the initial state, after any events, ids equal positions and exactly
   * one entry is active: the last.
   */
  lemma ReachableWellFormed(events: seq<Event>)
    ensures var entries := Run(InitialEntries(), events);
      && |entries| > 0
      && (forall i :: 0 <= i < |entries| ==> entries[i].id == i)
      && (set i | 0 <= i < |entries| && entries[i].isActive) == {|entries| - 1}
  {
    InitialEntriesWellFormed();
    RunWellFormed(InitialEntries(), events);
    ExactlyOneActive(Run(InitialEntries(), events));
  }

  /**
   * The list only grows: one entry per commit; the entries already there keep
   * their ids and stay in place; a frozen entry keeps its freeze time; a
   * committed entry stays committed.
   */
  lemma {:induction false} RunAppendOnly(entries: seq<Entry>, events: seq<Event>, i: nat)
    requires i < |entries|
    ensures var r := Run(entries, events);
      && |r| == |entries| + CommitEvents(events)
      && r[i].id == entries[i].id
      && (entries[i].frozen ==> r[i].frozen && r[i].frozenAt == entries[i].frozenAt)
      && (entries[i].committed ==> r[i].committed)
    decreases |events|
  {
    if events != [] {
      var next := Step(entries, events[0]);
      assert next[i].id == entries[i].id;
      assert entries[i].frozen ==> next[i].frozen && next[i].frozenAt == entries[i].frozenAt;
      assert entries[i].committed ==> next[i].committed;
      RunAppendOnly(next, events[1..], i);
    }
  }
}
