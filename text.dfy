/**
 * The two JavaScript string operations the ledger pipeline relies on:
 * `String.prototype.split` with a one-character separator and
 * `String.prototype.trim`.  Strings are sequences of Unicode scalar values.
 */
module Text {

  /** The characters `trim` removes: ECMAScript's WhiteSpace and LineTerminator
      code points (tab, line feed, vertical tab, form feed, carriage return,
      space, no-break space, byte order mark, the Unicode space separators and
      the line and paragraph separators). */
  predicate IsWhitespace(ch: char) {
    || ch == '\t' || ch == '\n' || ch == '\U{000B}' || ch == '\U{000C}' || ch == '\r'
    || ch == ' ' || ch == '\U{00A0}' || ch == '\U{1680}'
    || ('\U{2000}' <= ch <= '\U{200A}')
    || ch == '\U{2028}' || ch == '\U{2029}' || ch == '\U{202F}' || ch == '\U{205F}'
    || ch == '\U{3000}' || ch == '\U{FEFF}'
  }

  /** Every character of `s` is whitespace (the empty string included). */
  predicate IsBlank(s: string) {
    forall k :: 0 <= k < |s| ==> IsWhitespace(s[k])
  }

  /** `s` starts or ends with whitespace. */
  predicate Padded(s: string) {
    |s| > 0 && (IsWhitespace(s[0]) || IsWhitespace(s[|s| - 1]))
  }

  /** The number of occurrences of `ch` in `s`. */
  function Count(s: string, ch: char): (n: nat)
    ensures n <= |s|
    ensures n == 0 <==> ch !in s
  {
    if s == [] then 0 else (if s[0] == ch then 1 else 0) + Count(s[1..], ch)
  }

  /** The parts glued back together with `sep` between neighbours
      (`Array.prototype.join`). */
  function Join(parts: seq<string>, sep: char): string {
    if parts == [] then []
    else if |parts| == 1 then parts[0]
    else parts[0] + [sep] + Join(parts[1..], sep)
  }

  lemma JoinThree(a: string, b: string, c: string, sep: char)
    ensures Join([a, b, c], sep) == a + [sep] + b + [sep] + c
  {
    assert [a, b, c][1..] == [b, c];
    assert [b, c][1..] == [c];
    assert Join([b, c], sep) == b + [sep] + c;
    assert a + [sep] + (b + [sep] + c) == a + [sep] + b + [sep] + c;
  }

  /**
   * `s.split(sep)`: the maximal pieces of `s` between occurrences of `sep`.
   * There is always at least one piece (the empty string splits into `[""]`),
   * no piece contains the separator, and joining the pieces gives `s` back.
   */
  function Split(s: string, sep: char): (parts: seq<string>)
    ensures |parts| == Count(s, sep) + 1
    ensures forall i :: 0 <= i < |parts| ==> sep !in parts[i]
    ensures Join(parts, sep) == s
  {
    if s == [] then [[]]
    else
      var rest := Split(s[1..], sep);
      if s[0] == sep then [[]] + rest
      else [[s[0]] + rest[0]] + rest[1..]
  }

  /** Text with no separator in it is a single piece. */
  lemma SplitNoSeparator(s: string, sep: char)
    requires sep !in s
    ensures Split(s, sep) == [s]
  {
    var parts := Split(s, sep);
    assert parts == [parts[0]];
  }

  /** Splitting at an occurrence of the separator splits each side on its own. */
  lemma {:induction false} SplitAtSeparator(a: string, b: string, sep: char)
    ensures Split(a + [sep] + b, sep) == Split(a, sep) + Split(b, sep)
  {
    var s := a + [sep] + b;
    if a == [] {
      assert s[1..] == b;
    } else {
      assert s[1..] == a[1..] + [sep] + b;
      SplitAtSeparator(a[1..], b, sep);
    }
  }

  /** Splitting is the inverse of joining separator-free pieces. */
  lemma {:induction false} SplitJoin(parts: seq<string>, sep: char)
    requires |parts| >= 1
    requires forall i :: 0 <= i < |parts| ==> sep !in parts[i]
    ensures Split(Join(parts, sep), sep) == parts
  {
    if |parts| == 1 {
      SplitNoSeparator(parts[0], sep);
    } else {
      SplitJoin(parts[1..], sep);
      SplitAtSeparator(parts[0], Join(parts[1..], sep), sep);
      SplitNoSeparator(parts[0], sep);
      assert parts == [parts[0]] + parts[1..];
    }
  }

  /** Where `s` stops being whitespace: the length of its leading whitespace. */
  function FirstNonBlank(s: string): (i: nat)
    ensures i <= |s|
    ensures forall k :: 0 <= k < i ==> IsWhitespace(s[k])
    ensures i < |s| ==> !IsWhitespace(s[i])
  {
    if s == [] || !IsWhitespace(s[0]) then 0 else 1 + FirstNonBlank(s[1..])
  }

  /** Where the trailing whitespace of `s` starts. */
  function EndNonBlank(s: string): (j: nat)
    ensures j <= |s|
    ensures forall k :: j <= k < |s| ==> IsWhitespace(s[k])
    ensures j > 0 ==> !IsWhitespace(s[j - 1])
  {
    if s == [] || !IsWhitespace(s[|s| - 1]) then |s| else EndNonBlank(s[..|s| - 1])
  }

  /**
   * `s.trim()`: the part of `s` between its leading and its trailing
   * whitespace.  The result is never padded, is empty exactly when `s` is
   * blank, and leaves text that is not padded alone.
   */
  function Trim(s: string): (t: string)
    ensures exists i, j :: 0 <= i <= j <= |s| && t == s[i..j] && IsBlank(s[..i]) && IsBlank(s[j..])
    ensures !Padded(t)
    ensures t == [] <==> IsBlank(s)
    ensures !Padded(s) ==> t == s
  {
    var i := FirstNonBlank(s);
    var j := i + EndNonBlank(s[i..]);
    TrimBounds(s, i, j);
    s[i..j]
  }

  /** The facts about the two cut points that `Trim` promises. */
  lemma TrimBounds(s: string, i: nat, j: nat)
    requires i == FirstNonBlank(s) && j == i + EndNonBlank(s[i..])
    ensures i <= j <= |s|
    ensures IsBlank(s[..i]) && IsBlank(s[j..])
    ensures !Padded(s[i..j])
    ensures s[i..j] == [] <==> IsBlank(s)
    ensures !Padded(s) ==> s[i..j] == s
  {
    TrimEdgesBlank(s, i, j);
    TrimEdgesKept(s, i, j);
    TrimBlankWhole(s, i, j);
    TrimUnpaddedWhole(s, i, j);
  }

  lemma TrimEdgesBlank(s: string, i: nat, j: nat)
    requires i == FirstNonBlank(s) && j == i + EndNonBlank(s[i..])
    ensures j <= |s| && IsBlank(s[..i]) && IsBlank(s[j..])
  {
    var rest := s[i..];
    forall k | 0 <= k < i ensures IsWhitespace(s[..i][k]) {
      assert s[..i][k] == s[k];
    }
    forall k | 0 <= k < |s| - j ensures IsWhitespace(s[j..][k]) {
      assert s[j..][k] == rest[j - i + k];
    }
  }

  lemma TrimEdgesKept(s: string, i: nat, j: nat)
    requires i == FirstNonBlank(s) && j == i + EndNonBlank(s[i..])
    ensures j <= |s| && !Padded(s[i..j])
  {
    var rest := s[i..];
    if i < j {
      assert s[i..j][0] == s[i];
      assert s[i..j][j - i - 1] == rest[j - i - 1];
    }
  }

  lemma TrimBlankWhole(s: string, i: nat, j: nat)
    requires i == FirstNonBlank(s) && j == i + EndNonBlank(s[i..])
    ensures j <= |s| && (s[i..j] == [] <==> IsBlank(s))
  {
    if i < |s| {
      assert s[i..][0] == s[i];
    }
  }

  lemma TrimUnpaddedWhole(s: string, i: nat, j: nat)
    requires i == FirstNonBlank(s) && j == i + EndNonBlank(s[i..])
    ensures j <= |s| && (!Padded(s) ==> s[i..j] == s)
  {
    if !Padded(s) && s != [] {
      assert i == 0;
      assert s[i..] == s;
    }
  }

  /** Trimming never introduces a character. */
  lemma TrimKeepsOut(s: string, ch: char)
    requires ch !in s
    ensures ch !in Trim(s)
  {
  }
}
