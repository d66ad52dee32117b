/**
 * The key handler of an entry's text area: Enter without Shift is taken
 * over by the journal, and commits the entry only when the line the caret
 * is on holds something other than whitespace before the caret.
 */
module KeyGuard {
  import opened Text

  /** What a key press does: whether the browser's own action is suppressed, and whether the entry is committed. */
  datatype KeyDownOutcome = KeyDownOutcome(preventDefault: bool, commit: bool)

  /** `value.substring(0, selectionStart).split('\n').pop() || ''`: the caret's line, up to the caret. */
  function CurrentLine(value: string, selectionStart: int): (r: string)
    ensures IsCaretLine(value, Caret(value, selectionStart), r)
  {
    var textBeforeCursor := Prefix(value, selectionStart);
    var lines := Split(textBeforeCursor, '\n');
    LastPieceIsAfterLast(textBeforeCursor, '\n');
    lines[|lines| - 1]
  }

  /** `handleKeyDown` for a key event on a text area holding `value` with the caret at `selectionStart`. */
  function HandleKeyDown(key: string, shiftKey: bool, value: string, selectionStart: int): (o: KeyDownOutcome)
    ensures o.preventDefault <==> key == "Enter" && !shiftKey
    ensures o.commit ==> o.preventDefault
  {
    if key == "Enter" && !shiftKey then
      var currentLine := CurrentLine(value, selectionStart);
      KeyDownOutcome(true, |Trim(currentLine)| > 0)
    else
      KeyDownOutcome(false, false)
  }

  /** Where `substring` puts the caret: the end of the text before the cursor, which is `selectionStart` clamped into `[0, |value|]`. */
  function Caret(value: string, selectionStart: int): (c: nat)
    ensures c <= |value| && value[..c] == Prefix(value, selectionStart)
    ensures selectionStart < 0 ==> c == 0
    ensures 0 <= selectionStart <= |value| ==> c == selectionStart
    ensures selectionStart > |value| ==> c == |value|
  {
    |Prefix(value, selectionStart)|
  }

  /** Some character before the caret is not whitespace, and no line break lies between it and the caret. */
  predicate CaretLineHasText(value: string, c: nat)
    requires c <= |value|
  {
    exists j :: 0 <= j < c && !IsJsWhitespace(value[j]) && '\n' !in value[j + 1..c]
  }

  /** `line` is the caret's line, up to the caret at `c`. */
  predicate IsCaretLine(value: string, c: nat, line: string)
    requires c <= |value|
  {
    && |line| <= c
    && line == value[c - |line|..c]
    && '\n' !in line
    && (|line| < c ==> value[c - |line| - 1] == '\n')
  }

  lemma CaretLineTextFromLine(value: string, c: nat, line: string, i: nat)
    requires c <= |value| && IsCaretLine(value, c, line)
    requires i < |line| && !IsJsWhitespace(line[i])
    ensures CaretLineHasText(value, c)
  {
    var j := c - |line| + i;
    assert value[j] == line[i];
    assert value[j + 1..c] == line[i + 1..];
    assert 0 <= j < c && !IsJsWhitespace(value[j]) && '\n' !in value[j + 1..c];
  }

  /** A character before the caret with no line break after it, itself no line break, lies on the caret's line. */
  lemma OnCaretLine(value: string, c: nat, line: string, j: nat)
    requires c <= |value| && IsCaretLine(value, c, line)
    requires j < c && value[j] != '\n' && '\n' !in value[j + 1..c]
    ensures c - |line| <= j
  {
    if |line| < c {
      SeparatorBeforeStretch(value, '\n', j + 1, c, c - |line| - 1);
    }
  }

  lemma CaretLineTextToLine(value: string, c: nat, line: string)
    requires c <= |value| && IsCaretLine(value, c, line)
    requires CaretLineHasText(value, c)
    ensures exists i :: 0 <= i < |line| && !IsJsWhitespace(line[i])
  {
    var j :| 0 <= j < c && !IsJsWhitespace(value[j]) && '\n' !in value[j + 1..c];
    var x := value[j];
    assert x != '\n' by {
      assert IsJsWhitespace('\n');
    }
    OnCaretLine(value, c, line, j);
    var i := j - (c - |line|);
    assert line[i] == x by {
      assert line == value[c - |line|..c];
    }
  }

  /**
   * The commit condition in terms of the text alone: Enter without Shift
   * commits exactly when some character before the caret is not whitespace
   * and no line break separates it from the caret.
   */
  lemma CommitIff(key: string, shiftKey: bool, value: string, selectionStart: int)
    ensures HandleKeyDown(key, shiftKey, value, selectionStart).commit <==>
      key == "Enter" && !shiftKey && CaretLineHasText(value, Caret(value, selectionStart))
  {
    var c, line := Caret(value, selectionStart), CurrentLine(value, selectionStart);
    TrimNonEmptyIff(line);
    if |Trim(line)| > 0 {
      var i :| 0 <= i < |line| && !IsJsWhitespace(line[i]);
      CaretLineTextFromLine(value, c, line, i);
    }
    if CaretLineHasText(value, c) {
      CaretLineTextToLine(value, c, line);
    }
  }

  /** Shift+Enter never commits and leaves the line break to the browser. */
  lemma ShiftEnterNeverCommits(value: string, selectionStart: int)
    ensures HandleKeyDown("Enter", true, value, selectionStart) == KeyDownOutcome(false, false)
  {
  }

  /** Enter on a line that is blank up to the caret is swallowed without committing. */
  lemma BlankLineNeverCommits(key: string, shiftKey: bool, value: string, selectionStart: int)
    requires !CaretLineHasText(value, Caret(value, selectionStart))
    ensures !HandleKeyDown(key, shiftKey, value, selectionStart).commit
  {
    CommitIff(key, shiftKey, value, selectionStart);
  }
}
