/**
 * String helpers with the meaning of the JavaScript built-ins the journal uses:
 * `String(n)` on integers, `padStart`, `trim`, `substring` and `split` with a
 * one-character separator. Strings are sequences of characters.
 */
module Text {

  // ---------------------------------------------------------------------------
  // Decimal digits: String(n)
  // ---------------------------------------------------------------------------

  predicate IsDigit(c: char) {
    '0' <= c <= '9'
  }

  predicate IsDigits(s: string) {
    forall i :: 0 <= i < |s| ==> IsDigit(s[i])
  }

  function DigitChar(d: nat): (c: char)
    requires d < 10
    ensures IsDigit(c) && c as int - '0' as int == d
  {
    (d + '0' as int) as char
  }

  /** The number a string of decimal digits denotes; leading zeros are allowed. */
  function DigitsValue(s: string): nat
    requires IsDigits(s)
  {
    if s == [] then 0 else 10 * DigitsValue(s[..|s| - 1]) + (s[|s| - 1] as int - '0' as int)
  }

  /**
   * `String(n)` for a non-negative integer below 10^21 (JavaScript switches to
   * exponential notation from there): its decimal numeral, one digit for each
   * power of ten.
   */
  function DecimalString(n: nat): (r: string)
    ensures IsDigits(r) && |r| >= 1
    ensures n < 10 <==> |r| == 1
    ensures n < 100 ==> |r| <= 2
  {
    if n < 10 then [DigitChar(n)] else DecimalString(n / 10) + [DigitChar(n % 10)]
  }

  /** The numeral denotes `n` and has no leading zero. */
  lemma {:induction false} DecimalStringDenotes(n: nat)
    ensures DigitsValue(DecimalString(n)) == n
    ensures DecimalString(n)[0] == '0' ==> n == 0
  {
    if n >= 10 {
      var prefix := DecimalString(n / 10);
      var r := DecimalString(n);
      DecimalStringDenotes(n / 10);
      assert r[..|r| - 1] == prefix;
      assert r[0] == prefix[0];
    }
  }

  /**
   * `String(i)` for an integer of magnitude below 10^21, which covers every
   * value a `Date` getter returns: a minus sign in front of the numeral of a
   * negative number.
   */
  function IntString(i: int): (r: string)
    ensures |r| >= 1
    ensures r[0] == '-' <==> i < 0
  {
    if i < 0 then "-" + DecimalString(-i) else DecimalString(i)
  }

  /** What follows the sign is the numeral of `|i|`, without leading zeros. */
  lemma IntStringReads(i: int)
    ensures var r, k := IntString(i), if i < 0 then 1 else 0;
      && k < |r| && IsDigits(r[k..])
      && DigitsValue(r[k..]) == (if i < 0 then -i else i)
      && (r[k] == '0' ==> i == 0)
  {
    DecimalStringDenotes(if i < 0 then -i else i);
    if i < 0 {
      assert IntString(i)[1..] == DecimalString(-i);
    }
  }

  /** Distinct natural numbers have distinct numerals. */
  lemma DecimalStringInjective(a: nat, b: nat)
    ensures DecimalString(a) == DecimalString(b) <==> a == b
  {
    DecimalStringDenotes(a);
    DecimalStringDenotes(b);
  }

  /** Distinct integers print differently. */
  lemma IntStringInjective(a: int, b: int)
    ensures IntString(a) == IntString(b) <==> a == b
  {
    if IntString(a) == IntString(b) {
      if a < 0 {
        assert b < 0;
        assert DecimalString(-a) == IntString(a)[1..] == IntString(b)[1..] == DecimalString(-b);
        DecimalStringInjective(-a, -b);
      } else {
        assert b >= 0;
        DecimalStringInjective(a, b);
      }
    }
  }

  // ---------------------------------------------------------------------------
  // padStart
  // ---------------------------------------------------------------------------

  /**
   * `s.padStart(width, fill)` for a one-character fill string: `s` itself when it
   * is already `width` long, otherwise `s` preceded by enough copies of `fill`.
   */
  function PadStart(s: string, width: nat, fill: char): (r: string)
    ensures |r| == if |s| >= width then |s| else width
    ensures r[|r| - |s|..] == s
    ensures forall i :: 0 <= i < |r| - |s| ==> r[i] == fill
    decreases width - |s|
  {
    if |s| >= width then s else PadStart([fill] + s, width, fill)
  }

  lemma {:induction false} LeadingZeroKeepsValue(s: string)
    requires IsDigits(s)
    ensures IsDigits(['0'] + s) && DigitsValue(['0'] + s) == DigitsValue(s)
  {
    if s != [] {
      var p := s[..|s| - 1];
      LeadingZeroKeepsValue(p);
      assert (['0'] + s)[..|s|] == ['0'] + p;
    }
  }

  /** `String(n).padStart(2, '0')`: the numeral, with a leading zero when it has one digit. */
  function TwoDigits(n: nat): (r: string)
    ensures IsDigits(r) && |r| >= 2
    ensures n < 100 ==> |r| == 2
  {
    PadStart(DecimalString(n), 2, '0')
  }

  /** The padded numeral still denotes `n`, so distinct numbers are padded differently. */
  lemma TwoDigitsDenotes(n: nat)
    ensures DigitsValue(TwoDigits(n)) == n
  {
    var s := DecimalString(n);
    DecimalStringDenotes(n);
    if |s| == 1 {
      assert TwoDigits(n) == ['0'] + s;
      LeadingZeroKeepsValue(s);
    }
  }

  /** Distinct numbers below a hundred are padded to distinct two-digit strings. */
  lemma TwoDigitsInjective(a: nat, b: nat)
    ensures TwoDigits(a) == TwoDigits(b) <==> a == b
  {
    TwoDigitsDenotes(a);
    TwoDigitsDenotes(b);
  }

  /** A slice equal to a digit string denotes what that string denotes. */
  lemma DigitsAt(r: string, lo: nat, hi: nat, field: string, n: nat)
    requires lo <= hi <= |r| && r[lo..hi] == field && IsDigits(field) && DigitsValue(field) == n
    ensures IsDigits(r[lo..hi]) && DigitsValue(r[lo..hi]) == n
  {
  }

  /** A string of digits holds no other character. */
  lemma DigitsExclude(s: string, c: char)
    requires IsDigits(s) && !IsDigit(c)
    ensures c !in s
  {
  }

  // ---------------------------------------------------------------------------
  // Splitting strings at a separator
  // ---------------------------------------------------------------------------

  /**
   * A string is cut at the first occurrence of a separator: if two strings that
   * do not contain the separator's first character are each followed by the
   * separator, equal results mean equal parts.
   */
  lemma SplitAtSeparator(x: string, sep: string, y: string, x': string, y': string)
    requires |sep| > 0 && sep[0] !in x && sep[0] !in x'
    requires x + sep + y == x' + sep + y'
    ensures x == x' && y == y'
  {
    var s := x + sep + y;
    // the separator first occurs at |x| and at |x'|
    assert s[|x|] == sep[0] && forall k :: 0 <= k < |x| ==> s[k] != sep[0];
    assert s[|x'|] == sep[0] && forall k :: 0 <= k < |x'| ==> s[k] != sep[0];
    assert x == s[..|x|] == x';
    assert y == s[|x| + |sep|..] == y';
  }

  /** Two two-character fields and a third of any length, glued with one-character separators: where each one sits. */
  lemma TwoCharFieldsLayout(a: string, b: string, c: string, sep: char)
    requires |a| == 2 && |b| == 2
    ensures var r := a + [sep] + b + [sep] + c;
      && |r| == |c| + 6 && r[..2] == a && r[2] == sep && r[3..5] == b && r[5] == sep
      && r[6..] == c && r[6..6 + |c|] == c
  {
    var r := a + [sep] + b + [sep] + c;
    assert r[3..5] == b;
  }

  /** Inverse of `Split`: the pieces glued back together with the separator. */
  function Join(parts: seq<string>, sep: char): string
    requires |parts| >= 1
  {
    if |parts| == 1 then parts[0] else parts[0] + [sep] + Join(parts[1..], sep)
  }

  /**
   * `s.split(sep)` for a one-character separator: the maximal separator-free
   * pieces of `s`, in order; the empty string splits into one empty piece.
   */
  function Split(s: string, sep: char): (parts: seq<string>)
    ensures |parts| >= 1
    ensures forall i :: 0 <= i < |parts| ==> sep !in parts[i]
    ensures Join(parts, sep) == s
  {
    if s == [] then [[]]
    else
      var rest := Split(s[1..], sep);
      if s[0] == sep then
        var parts := [[]] + rest;
        assert parts[1..] == rest;
        parts
      else
        var parts := [[s[0]] + rest[0]] + rest[1..];
        assert |rest| > 1 ==> parts[1..] == rest[1..] && Join(rest, sep) == rest[0] + [sep] + Join(rest[1..], sep);
        assert s == [s[0]] + s[1..];
        parts
  }

  /** `r` is the part of `s` after its last `sep`, or all of `s` when there is none. */
  predicate IsAfterLast(s: string, sep: char, r: string) {
    && |r| <= |s|
    && s[|s| - |r|..] == r
    && sep !in r
    && (|r| < |s| ==> s[|s| - |r| - 1] == sep)
  }

  lemma {:induction false} JoinEndsWithLast(parts: seq<string>, sep: char)
    requires |parts| >= 1
    ensures var j, last := Join(parts, sep), parts[|parts| - 1];
      && |last| <= |j| && j[|j| - |last|..] == last
      && (|parts| > 1 ==> |last| < |j| && j[|j| - |last| - 1] == sep)
  {
    if |parts| > 1 {
      JoinEndsWithLast(parts[1..], sep);
      var tail := Join(parts[1..], sep);
      var j := parts[0] + [sep] + tail;
      assert j[|parts[0]| + 1..] == tail;
    }
  }

  /** What `s.split(sep).pop()` returns: the text after the last separator. */
  lemma LastPieceIsAfterLast(s: string, sep: char)
    ensures var parts := Split(s, sep); IsAfterLast(s, sep, parts[|parts| - 1])
  {
    JoinEndsWithLast(Split(s, sep), sep);
  }

  /** An occurrence of `sep` before `end` lies before a stretch `[start, end)` that has none. */
  lemma SeparatorBeforeStretch(s: string, sep: char, start: nat, end: nat, p: nat)
    requires start <= end <= |s| && sep !in s[start..end]
    requires p < end && s[p] == sep
    ensures p < start
  {
    assert forall k :: start <= k < end ==> s[k] in s[start..end];
  }

  /** No separator-free suffix of `s` is longer than the text after the last separator. */
  lemma AfterLastIsLongest(s: string, sep: char, r: string, t: string)
    requires IsAfterLast(s, sep, r)
    requires |t| <= |s| && s[|s| - |t|..] == t && sep !in t
    ensures |t| <= |r|
  {
    if |r| < |s| {
      SeparatorBeforeStretch(s, sep, |s| - |t|, |s|, |s| - |r| - 1);
    }
  }

  /** The text after the last separator is determined by `s`. */
  lemma AfterLastUnique(s: string, sep: char, r1: string, r2: string)
    requires IsAfterLast(s, sep, r1) && IsAfterLast(s, sep, r2)
    ensures r1 == r2
  {
    AfterLastIsLongest(s, sep, r1, r2);
    AfterLastIsLongest(s, sep, r2, r1);
  }

  // ---------------------------------------------------------------------------
  // substring and trim
  // ---------------------------------------------------------------------------

  /** `s.substring(0, end)`: `end` is clamped into `[0, |s|]`. */
  function Prefix(s: string, end: int): (r: string)
    ensures |r| <= |s| && r == s[..|r|]
    ensures 0 <= end <= |s| ==> |r| == end
    ensures end < 0 ==> r == []
    ensures end > |s| ==> r == s
  {
    if end < 0 then [] else if end > |s| then s else s[..end]
  }

  /**
   * The characters `String.prototype.trim` removes: ECMAScript WhiteSpace
   * (TAB, VT, FF, SPACE, NO-BREAK SPACE, ZERO WIDTH NO-BREAK SPACE and the
   * Unicode space separators) and LineTerminator (LF, CR, LS, PS).
   */
  predicate IsJsWhitespace(c: char) {
    var u := c as int;
    || u == 0x09 || u == 0x0B || u == 0x0C || u == 0x20 || u == 0xA0 || u == 0xFEFF
    || u == 0x1680 || (0x2000 <= u <= 0x200A) || u == 0x202F || u == 0x205F || u == 0x3000
    || u == 0x0A || u == 0x0D || u == 0x2028 || u == 0x2029
  }

  /** Drops the leading whitespace of `s`. */
  function TrimStart(s: string): (r: string)
    ensures |r| <= |s| && r == s[|s| - |r|..]
    ensures forall i :: 0 <= i < |s| - |r| ==> IsJsWhitespace(s[i])
    ensures r == [] || !IsJsWhitespace(r[0])
  {
    if s == [] || !IsJsWhitespace(s[0]) then s else TrimStart(s[1..])
  }

  /** Drops the trailing whitespace of `s`. */
  function TrimEnd(s: string): (r: string)
    ensures |r| <= |s| && r == s[..|r|]
    ensures forall i :: |r| <= i < |s| ==> IsJsWhitespace(s[i])
    ensures r == [] || !IsJsWhitespace(r[|r| - 1])
  {
    if s == [] || !IsJsWhitespace(s[|s| - 1]) then s else TrimEnd(s[..|s| - 1])
  }

  /** `s.trim()`: no longer than `s`, and neither starting nor ending with whitespace. */
  function Trim(s: string): (r: string)
    ensures |r| <= |s|
    ensures r == [] || (!IsJsWhitespace(r[0]) && !IsJsWhitespace(r[|r| - 1]))
  {
    TrimEnd(TrimStart(s))
  }

  /** `s.trim().length > 0` exactly when `s` holds a character that is not whitespace. */
  lemma TrimNonEmptyIff(s: string)
    ensures |Trim(s)| > 0 <==> exists i :: 0 <= i < |s| && !IsJsWhitespace(s[i])
  {
    var t := TrimStart(s);
    var r := TrimEnd(t);
    var off := |s| - |t|;
    if |r| > 0 {
      assert s[off + |r| - 1] == t[|r| - 1] == r[|r| - 1];
    } else {
      forall i | 0 <= i < |s| ensures IsJsWhitespace(s[i]) {
        if i >= off {
          assert s[i] == t[i - off];
        }
      }
    }
  }
}
