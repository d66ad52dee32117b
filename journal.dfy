/**
 * A writing session as the user drives it. Only the entry that is not yet
 * committed renders a text area, and that is always the last, active one:
 * every input event and every key press goes to it. Typing replaces its
 * text; Enter without Shift on a line holding text before the caret commits
 * it and opens a fresh entry below.
 */
module Journal {
  import opened Wrappers
  import opened Text
  import opened Formats
  import opened Entries
  import opened KeyGuard
  import opened Display

  /** What the user does to the active entry's text area. */
  datatype UserAction =
    | Type(text: string, now: Instant)
    | PressKey(key: string, shiftKey: bool, selectionStart: int)

  /** The id of the active entry: the last one. */
  function ActiveId(entries: seq<Entry>): nat
    requires |entries| > 0
  {
    entries[|entries| - 1].id
  }

  /**
   * The list after one action on the active entry: an input event calls
   * `handleInputChange`, a key press calls `handleCommit` when the key
   * handler decides to commit, with the text area's value being the entry's text.
   */
  function Act(entries: seq<Entry>, action: UserAction): (r: seq<Entry>)
    requires |entries| > 0
    ensures |r| == |entries| || |r| == |entries| + 1
  {
    var active := entries[|entries| - 1];
    match action
    case Type(text, now) => InputChange(entries, active.id, text, now)
    case PressKey(key, shiftKey, selectionStart) =>
      if HandleKeyDown(key, shiftKey, active.text, selectionStart).commit then Commit(entries, active.id) else entries
  }

  /** The list after a series of actions, in order. */
  function Replay(entries: seq<Entry>, actions: seq<UserAction>): (r: seq<Entry>)
    requires |entries| > 0
    ensures |r| >= |entries|
    decreases |actions|
  {
    if actions == [] then entries else Replay(Act(entries, actions[0]), actions[1..])
  }

  /** `t` holds a character that `trim` keeps. */
  predicate HasVisibleText(t: string) {
    exists k :: 0 <= k < |t| && !IsJsWhitespace(t[k])
  }

  /**
   * The shape of every list a session reaches: well formed, the active entry
   * not committed, and every earlier entry committed with visible text.
   */
  predicate Settled(entries: seq<Entry>) {
    && WellFormed(entries)
    && !entries[|entries| - 1].committed
    && (forall i :: 0 <= i < |entries| - 1 ==> entries[i].committed && HasVisibleText(entries[i].text))
  }

  lemma InitialSettled()
    ensures Settled(InitialEntries())
  {
    InitialEntriesWellFormed();
  }

  /** A commit happens only on Enter without Shift, and only when the active entry holds visible text. */
  lemma ActCommitsVisibleText(entries: seq<Entry>, action: UserAction)
    requires |entries| > 0
    ensures |Act(entries, action)| == |entries| + 1 ==>
      && action.PressKey? && action.key == "Enter" && !action.shiftKey
      && HasVisibleText(entries[|entries| - 1].text)
  {
    if action.PressKey? {
      var text := entries[|entries| - 1].text;
      CommitIff(action.key, action.shiftKey, text, action.selectionStart);
      if HandleKeyDown(action.key, action.shiftKey, text, action.selectionStart).commit {
        var c := Caret(text, action.selectionStart);
        var j :| 0 <= j < c && !IsJsWhitespace(text[j]) && '\n' !in text[j + 1..c];
        assert 0 <= j < |text| && !IsJsWhitespace(text[j]);
      }
    }
  }

  /** Typing into the active entry leaves every other entry as it is. */
  lemma TypeKeepsSettled(entries: seq<Entry>, text: string, now: Instant)
    requires Settled(entries)
    ensures Settled(InputChange(entries, ActiveId(entries), text, now))
  {
    var n := |entries|;
    var r := InputChange(entries, n - 1, text, now);
    InputChangeWellFormed(entries, n - 1, text, now);
    forall i | 0 <= i < n - 1
      ensures r[i].committed && HasVisibleText(r[i].text)
    {
      assert r[i] == entries[i];
    }
  }

  /** Committing an active entry that holds visible text keeps the session's shape. */
  lemma CommitKeepsSettled(entries: seq<Entry>)
    requires Settled(entries) && HasVisibleText(entries[|entries| - 1].text)
    ensures Settled(Commit(entries, ActiveId(entries)))
  {
    var n := |entries|;
    var r := Commit(entries, n - 1);
    CommitWellFormed(entries, n - 1);
    forall i | 0 <= i < n
      ensures r[i].committed && HasVisibleText(r[i].text)
    {
      assert r[i].text == entries[i].text;
    }
  }

  /** Every action keeps the session's shape. */
  lemma ActKeepsSettled(entries: seq<Entry>, action: UserAction)
    requires Settled(entries)
    ensures Settled(Act(entries, action))
  {
    match action {
      case Type(text, now) =>
        TypeKeepsSettled(entries, text, now);
      case PressKey(key, shiftKey, selectionStart) =>
        ActCommitsVisibleText(entries, action);
        if |Act(entries, action)| == |entries| + 1 {
          CommitKeepsSettled(entries);
        }
    }
  }

  lemma {:induction false} ReplayKeepsSettled(entries: seq<Entry>, actions: seq<UserAction>)
    requires Settled(entries)
    ensures Settled(Replay(entries, actions))
    decreases |actions|
  {
    if actions != [] {
      ActKeepsSettled(entries, actions[0]);
      ReplayKeepsSettled(Act(entries, actions[0]), actions[1..]);
    }
  }

  /**
   * Whatever the user does from the initial state: the last entry is the
   * only active one and is not committed, every earlier entry is committed,
   * frozen and holds visible text.
   */
  lemma SessionSettled(actions: seq<UserAction>)
    ensures var entries := Replay(InitialEntries(), actions);
      && Settled(entries)
      && (forall i :: 0 <= i < |entries| ==> (entries[i].isActive <==> i == |entries| - 1))
      && (forall i :: 0 <= i < |entries| - 1 ==> entries[i].frozen && entries[i].frozenAt.Some?)
  {
    InitialSettled();
    ReplayKeepsSettled(InitialEntries(), actions);
  }

  /**
   * Once committed, an entry's date and time lines are fixed: they read its
   * freeze time and no longer follow the clock.
   */
  lemma CommittedLinesIgnoreNow(entries: seq<Entry>, index: nat, now1: Instant, now2: Instant, dateFormatIndex: nat, timeFormatIndex: nat)
    requires Settled(entries) && index < |entries| - 1
    requires dateFormatIndex < DateFormatCount && timeFormatIndex < TimeFormatCount
    ensures DateLine(entries, index, now1, dateFormatIndex) == DateLine(entries, index, now2, dateFormatIndex)
    ensures TimeLine(entries, index, now1, timeFormatIndex) == TimeLine(entries, index, now2, timeFormatIndex)
  {
    var k :| 0 <= k < |entries[index].text| && !IsJsWhitespace(entries[index].text[k]);
    if index > 0 {
      var k' :| 0 <= k' < |entries[index - 1].text| && !IsJsWhitespace(entries[index - 1].text[k']);
    }
    FrozenLinesIgnoreNow(entries, index, now1, now2, dateFormatIndex, timeFormatIndex);
  }

  // ---------------------------------------------------------------------------
  // The committed texts
  // ---------------------------------------------------------------------------

  /** The texts of the committed entries, top to bottom. */
  function CommittedTexts(entries: seq<Entry>): seq<string> {
    if entries == [] then []
    else
      var last := entries[|entries| - 1];
      CommittedTexts(entries[..|entries| - 1]) + if last.committed then [last.text] else []
  }

  /** Which entries are committed and what those say is all the committed texts depend on. */
  lemma {:induction false} CommittedTextsAgree(a: seq<Entry>, b: seq<Entry>)
    requires |a| == |b|
    requires forall i :: 0 <= i < |a| ==> a[i].committed == b[i].committed
    requires forall i :: 0 <= i < |a| && a[i].committed ==> a[i].text == b[i].text
    ensures CommittedTexts(a) == CommittedTexts(b)
    decreases |a|
  {
    if a != [] {
      CommittedTextsAgree(a[..|a| - 1], b[..|b| - 1]);
    }
  }

  /** Typing changes no committed text. */
  lemma TypeKeepsCommittedTexts(entries: seq<Entry>, text: string, now: Instant)
    requires Settled(entries)
    ensures CommittedTexts(InputChange(entries, ActiveId(entries), text, now)) == CommittedTexts(entries)
  {
    CommittedTextsAgree(InputChange(entries, ActiveId(entries), text, now), entries);
  }

  /**
   * When the last entry of `a` becomes committed and an uncommitted entry is
   * appended, its text is appended to the committed texts.
   */
  lemma CommittedTextsCommitLast(a: seq<Entry>, b: seq<Entry>)
    requires |a| > 0 && |b| == |a| + 1
    requires forall i :: 0 <= i < |a| - 1 ==> a[i].committed == b[i].committed
    requires forall i :: 0 <= i < |a| - 1 && a[i].committed ==> a[i].text == b[i].text
    requires !a[|a| - 1].committed && b[|a| - 1].committed && b[|a| - 1].text == a[|a| - 1].text
    requires !b[|a|].committed
    ensures CommittedTexts(b) == CommittedTexts(a) + [a[|a| - 1].text]
  {
    var n := |a|;
    var kept := b[..n];
    assert b[..|b| - 1] == kept;
    assert kept[..n - 1] == b[..n - 1];
    CommittedTextsAgree(b[..n - 1], a[..n - 1]);
  }

  /** A commit appends the active entry's text to the committed texts and changes none of them. */
  lemma CommitAppendsCommittedText(entries: seq<Entry>)
    requires Settled(entries)
    ensures CommittedTexts(Commit(entries, ActiveId(entries))) == CommittedTexts(entries) + [entries[|entries| - 1].text]
  {
    CommittedTextsCommitLast(entries, Commit(entries, ActiveId(entries)));
  }

  /**
   * Committed texts are never changed or reordered: typing leaves them as
   * they are, and a commit appends the active entry's text.
   */
  lemma ActAppendsCommittedText(entries: seq<Entry>, action: UserAction)
    requires Settled(entries)
    ensures var r := Act(entries, action);
      CommittedTexts(r) == CommittedTexts(entries) + if |r| > |entries| then [entries[|entries| - 1].text] else []
  {
    match action {
      case Type(text, now) =>
        TypeKeepsCommittedTexts(entries, text, now);
      case PressKey(key, shiftKey, selectionStart) =>
        if |Act(entries, action)| > |entries| {
          CommitAppendsCommittedText(entries);
        }
    }
  }

  /** After any actions, the texts committed before are still the first ones, unchanged and in order. */
  lemma {:induction false} ReplayExtendsCommittedTexts(entries: seq<Entry>, actions: seq<UserAction>)
    requires Settled(entries)
    ensures CommittedTexts(entries) <= CommittedTexts(Replay(entries, actions))
    decreases |actions|
  {
    if actions != [] {
      var next := Act(entries, actions[0]);
      ActAppendsCommittedText(entries, actions[0]);
      ActKeepsSettled(entries, actions[0]);
      ReplayExtendsCommittedTexts(next, actions[1..]);
      PrefixTransitive(CommittedTexts(entries), CommittedTexts(next), CommittedTexts(Replay(next, actions[1..])));
    }
  }

  lemma PrefixTransitive(a: seq<string>, b: seq<string>, c: seq<string>)
    requires a <= b && b <= c
    ensures a <= c
  {
    assert c[..|a|] == b[..|a|];
  }

  // ---------------------------------------------------------------------------
  // Scenarios
  // ---------------------------------------------------------------------------

  /** Enter with the caret at the end of a text that ends in a visible character commits it. */
  lemma EnterAfterVisibleCharCommits(text: string)
    requires |text| > 0 && !IsJsWhitespace(text[|text| - 1])
    ensures HandleKeyDown("Enter", false, text, |text|).commit
  {
    var c, j := Caret(text, |text|), |text| - 1;
    assert c == |text| && text[j + 1..c] == [];
    assert CaretLineHasText(text, c);
    CommitIff("Enter", false, text, |text|);
  }

  /** Replaying two series of actions one after the other is replaying them joined. */
  lemma {:induction false} ReplayConcat(entries: seq<Entry>, first: seq<UserAction>, second: seq<UserAction>)
    requires |entries| > 0
    ensures Replay(entries, first + second) == Replay(Replay(entries, first), second)
    decreases |first|
  {
    if first == [] {
      assert first + second == second;
    } else {
      assert (first + second)[0] == first[0];
      assert (first + second)[1..] == first[1..] + second;
      ReplayConcat(Act(entries, first[0]), first[1..], second);
    }
  }

  /** Typing into the fresh active entry freezes it at the time of typing and changes nothing else. */
  lemma TypeIntoFreshEntry(entries: seq<Entry>, text: string, now: Instant)
    requires Settled(entries) && !entries[|entries| - 1].frozen && |text| > 0
    ensures var r := Act(entries, Type(text, now));
      && Settled(r) && |r| == |entries|
      && CommittedTexts(r) == CommittedTexts(entries)
      && r[|entries| - 1].text == text && r[|entries| - 1].frozenAt == Some(now)
      && (forall i :: 0 <= i < |entries| - 1 ==> r[i] == entries[i])
  {
    TypeKeepsSettled(entries, text, now);
    TypeKeepsCommittedTexts(entries, text, now);
    InputFreezesOnce(entries, ActiveId(entries), text, now, |entries| - 1);
  }

  /** Enter at the end of an active entry whose last character is visible commits it. */
  lemma EnterAtEndCommits(entries: seq<Entry>)
    requires Settled(entries)
    requires var text := entries[|entries| - 1].text; |text| > 0 && !IsJsWhitespace(text[|text| - 1])
    ensures var r := Act(entries, PressKey("Enter", false, |entries[|entries| - 1].text|));
      && Settled(r) && |r| == |entries| + 1
      && CommittedTexts(r) == CommittedTexts(entries) + [entries[|entries| - 1].text]
      && r[|entries|] == FreshEntry(|entries|)
      && (forall i :: 0 <= i < |entries| ==> r[i].frozenAt == entries[i].frozenAt)
  {
    var text := entries[|entries| - 1].text;
    EnterAfterVisibleCharCommits(text);
    var visible := |text| - 1;
    assert 0 <= visible < |text| && !IsJsWhitespace(text[visible]);
    CommitKeepsSettled(entries);
    CommitAppendsCommittedText(entries);
  }

  /** Filling the active entry with `text` at `now`, then pressing Enter with the caret at its end. */
  function WriteEntry(text: string, now: Instant): seq<UserAction> {
    [Type(text, now), PressKey("Enter", false, |text|)]
  }

  /**
   * Filling the fresh active entry with a text that ends in a
   * visible character and pressing Enter at its end commits exactly that
   * text, frozen at the time it was typed, and opens the next fresh entry.
   */
  lemma WriteAndCommit(entries: seq<Entry>, text: string, now: Instant)
    requires Settled(entries) && !entries[|entries| - 1].frozen && EndsVisibly(text)
    ensures var r := Replay(entries, WriteEntry(text, now));
      && Settled(r) && |r| == |entries| + 1
      && CommittedTexts(r) == CommittedTexts(entries) + [text]
      && r[|entries| - 1].frozenAt == Some(now)
      && r[|entries|] == FreshEntry(|entries|)
      && (forall i :: 0 <= i < |entries| - 1 ==> r[i].frozenAt == entries[i].frozenAt)
  {
    var actions := WriteEntry(text, now);
    TypeIntoFreshEntry(entries, text, now);
    var typed := Act(entries, actions[0]);
    EnterAtEndCommits(typed);
    var committed := Act(typed, actions[1]);
    assert Replay(entries, actions) == Replay(typed, actions[1..]);
    assert Replay(typed, actions[1..]) == Replay(committed, []);
  }

  /** A text that ends in a character `trim` keeps, such as "Entry 1". */
  predicate EndsVisibly(text: string) {
    |text| > 0 && !IsJsWhitespace(text[|text| - 1])
  }

  /** Writing a first entry commits it and opens entry 1. */
  lemma FirstEntryScenario(text1: string, t1: Instant)
    requires EndsVisibly(text1)
    ensures var entries := Replay(InitialEntries(), WriteEntry(text1, t1));
      && Settled(entries) && |entries| == 2 && !entries[1].frozen
      && CommittedTexts(entries) == [text1] && entries[0].frozenAt == Some(t1)
  {
    var e0 := InitialEntries();
    InitialSettled();
    assert CommittedTexts(e0) == [] by {
      assert e0[..0] == [];
    }
    WriteAndCommit(e0, text1, t1);
  }

  /** Writing two entries one after the other commits both texts, in order. */
  lemma TwoEntriesCommitted(text1: string, t1: Instant, text2: string, t2: Instant)
    requires EndsVisibly(text1) && EndsVisibly(text2)
    ensures CommittedTexts(Replay(Replay(InitialEntries(), WriteEntry(text1, t1)), WriteEntry(text2, t2))) == [text1, text2]
  {
    FirstEntryScenario(text1, t1);
    WriteAndCommit(Replay(InitialEntries(), WriteEntry(text1, t1)), text2, t2);
  }

  /** Writing two entries one after the other freezes each at its own time and opens entry 2. */
  lemma TwoEntriesFrozen(text1: string, t1: Instant, text2: string, t2: Instant)
    requires EndsVisibly(text1) && EndsVisibly(text2)
    ensures var entries := Replay(Replay(InitialEntries(), WriteEntry(text1, t1)), WriteEntry(text2, t2));
      && |entries| == 3 && entries[2] == FreshEntry(2)
      && entries[0].frozenAt == Some(t1) && entries[1].frozenAt == Some(t2)
  {
    FirstEntryScenario(text1, t1);
    WriteAndCommit(Replay(InitialEntries(), WriteEntry(text1, t1)), text2, t2);
  }

  /**
   * Writing two entries, each committed with Enter (as with "Entry 1" and
   * "Entry 2"): two committed entries in that order, each frozen when it was
   * typed, and a fresh active entry below them; the same as replaying all
   * four actions at once.
   */
  lemma TwoEntriesScenario(text1: string, t1: Instant, text2: string, t2: Instant)
    requires EndsVisibly(text1) && EndsVisibly(text2)
    ensures var entries := Replay(InitialEntries(), WriteEntry(text1, t1) + WriteEntry(text2, t2));
      && CommittedTexts(entries) == [text1, text2]
      && |entries| == 3 && entries[2] == FreshEntry(2)
      && entries[0].frozenAt == Some(t1) && entries[1].frozenAt == Some(t2)
  {
    TwoEntriesCommitted(text1, t1, text2, t2);
    TwoEntriesFrozen(text1, t1, text2, t2);
    ReplayConcat(InitialEntries(), WriteEntry(text1, t1), WriteEntry(text2, t2));
  }

  /** The two texts of the browser test that writes several entries both end visibly. */
  lemma TestTextsEndVisibly()
    ensures EndsVisibly("Entry 1") && EndsVisibly("Entry 2")
  {
  }

  /** Shift+Enter leaves the list as it is and lets the browser insert the line break. */
  lemma ShiftEnterKeepsEntries(entries: seq<Entry>, selectionStart: int)
    requires |entries| > 0
    ensures Act(entries, PressKey("Enter", true, selectionStart)) == entries
    ensures !HandleKeyDown("Enter", true, entries[|entries| - 1].text, selectionStart).preventDefault
  {
    ShiftEnterNeverCommits(entries[|entries| - 1].text, selectionStart);
  }
}
