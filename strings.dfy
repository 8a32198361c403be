/**
 * The character classes of the two line patterns of index.js and the few
 * JavaScript string operations the format relies on: `trim`,
 * `split(/\r?\n/)`, `join("\n")`, `substring`, `replaceAll` of one
 * character and `"  ".repeat(level)`.
 */
module Strings {

  /** The characters JavaScript's `\s` matches; `String.prototype.trim` strips the same set. */
  predicate IsWhitespace(c: char) {
    || c == ' ' || c == '\t' || c == '\n' || c == '\U{000B}' || c == '\U{000C}' || c == '\r'
    || c == '\U{00A0}' || c == '\U{1680}' || ('\U{2000}' <= c <= '\U{200A}')
    || c == '\U{2028}' || c == '\U{2029}' || c == '\U{202F}' || c == '\U{205F}'
    || c == '\U{3000}' || c == '\U{FEFF}'
  }

  /** The key class `[a-zA-Z0-9_]`. */
  predicate IsKeyChar(c: char) {
    ('a' <= c <= 'z') || ('A' <= c <= 'Z') || ('0' <= c <= '9') || c == '_'
  }

  /** The value class `[a-zA-Z0-9/\-:._ \\{"]`. */
  predicate IsValueChar(c: char) {
    IsKeyChar(c) || c == '/' || c == '-' || c == ':' || c == '.' || c == ' '
    || c == '\\' || c == '{' || c == '"'
  }

  predicate IsDigit(c: char) {
    '0' <= c <= '9'
  }

  predicate IsBackslash(c: char) {
    c == '\\'
  }

  predicate AllWhitespace(s: string) {
    forall j :: 0 <= j < |s| ==> IsWhitespace(s[j])
  }

  predicate AllKeyChars(s: string) {
    forall j :: 0 <= j < |s| ==> IsKeyChar(s[j])
  }

  predicate AllValueChars(s: string) {
    forall j :: 0 <= j < |s| ==> IsValueChar(s[j])
  }

  predicate AllDigits(s: string) {
    forall j :: 0 <= j < |s| ==> IsDigit(s[j])
  }

  /** No character of `s` is a line break of either kind. */
  predicate SingleLine(s: string) {
    forall j :: 0 <= j < |s| ==> s[j] != '\n' && s[j] != '\r'
  }

  predicate StartsWith(s: string, prefix: string) {
    |prefix| <= |s| && s[..|prefix|] == prefix
  }

  predicate EndsWith(s: string, suffix: string) {
    |suffix| <= |s| && s[|s| - |suffix|..] == suffix
  }

  /** The character classes the reader measures runs of. */
  datatype CharClass = Whitespace | KeyChars | Digits | Backslashes

  predicate InClass(c: char, p: CharClass) {
    match p
    case Whitespace => IsWhitespace(c)
    case KeyChars => IsKeyChar(c)
    case Digits => IsDigit(c)
    case Backslashes => IsBackslash(c)
  }

  /** Length of the longest run of characters of class `p` that starts at `from`. */
  function Span(s: string, from: nat, p: CharClass): (n: nat)
    requires from <= |s|
    ensures from + n <= |s|
    ensures from + n == |s| || !InClass(s[from + n], p)
    decreases |s| - from
  {
    if from < |s| && InClass(s[from], p) then 1 + Span(s, from + 1, p) else 0
  }

  /** Every character of the run `Span` measures is of class `p`. */
  lemma {:induction false} SpanRun(s: string, from: nat, p: CharClass)
    requires from <= |s|
    ensures forall j :: from <= j < from + Span(s, from, p) ==> InClass(s[j], p)
    decreases |s| - from
  {
    if from < |s| && InClass(s[from], p) {
      SpanRun(s, from + 1, p);
    }
  }

  /** A run of class `p` that is not followed by another character of the class is what `Span` measures. */
  lemma {:induction false} SpanExact(s: string, from: nat, p: CharClass, n: nat)
    requires from + n <= |s|
    requires forall j :: from <= j < from + n ==> InClass(s[j], p)
    requires from + n == |s| || !InClass(s[from + n], p)
    ensures Span(s, from, p) == n
    decreases n
  {
    if n > 0 {
      SpanExact(s, from + 1, p, n - 1);
    }
  }

  /** The whitespace run `Span` measures is all whitespace. */
  lemma WhitespaceSpan(s: string, from: nat)
    requires from <= |s|
    ensures AllWhitespace(s[from..from + Span(s, from, Whitespace)])
  {
    SpanRun(s, from, Whitespace);
    var n := Span(s, from, Whitespace);
    forall i | from <= i < from + n ensures IsWhitespace(s[i]) {
      assert InClass(s[i], Whitespace);
    }
  }

  /** The key-character run `Span` measures is all key characters. */
  lemma KeyCharSpan(s: string, from: nat)
    requires from <= |s|
    ensures AllKeyChars(s[from..from + Span(s, from, KeyChars)])
  {
    SpanRun(s, from, KeyChars);
    var n := Span(s, from, KeyChars);
    forall i | from <= i < from + n ensures IsKeyChar(s[i]) {
      assert InClass(s[i], KeyChars);
    }
  }

  /** `s` with its trailing whitespace removed. */
  function TrimEnd(s: string): (r: string)
    ensures |r| <= |s| && r == s[..|r|]
    ensures AllWhitespace(s[|r|..])
    ensures r == [] || !IsWhitespace(r[|r| - 1])
  {
    if |s| > 0 && IsWhitespace(s[|s| - 1]) then
      var r := TrimEnd(s[..|s| - 1]);
      assert s[..|s| - 1][..|r|] == s[..|r|];
      assert s[|r|..] == s[..|s| - 1][|r|..] + [s[|s| - 1]];
      r
    else s
  }

  /** `s.trim()`: `s` without its leading and trailing whitespace. */
  function Trim(s: string): (r: string)
    ensures |r| <= |s|
    ensures r == [] || (!IsWhitespace(r[0]) && !IsWhitespace(r[|r| - 1]))
  {
    TrimEnd(s[Span(s, 0, Whitespace)..])
  }

  /** Trimming strips exactly the surrounding whitespace: the converse of `Trim`'s contract. */
  lemma TrimOf(front: string, x: string, back: string)
    requires AllWhitespace(front) && AllWhitespace(back)
    requires x == [] || (!IsWhitespace(x[0]) && !IsWhitespace(x[|x| - 1]))
    ensures Trim(front + x + back) == x
  {
    var s := front + x + back;
    var a := Span(s, 0, Whitespace);
    SpanRun(s, 0, Whitespace);
    if x == [] {
      assert AllWhitespace(s);
      assert a == |s|;
      assert s[a..] == [];
    } else {
      assert s[|front|] == x[0];
      assert a == |front|;
      assert s[a..] == x + back;
      TrimEndOf(x, back);
    }
  }

  /** `Trim(s)` stands in `s` between the leading and the trailing whitespace. */
  lemma TrimSplit(s: string)
    ensures var a := Span(s, 0, Whitespace);
      && a + |Trim(s)| <= |s|
      && AllWhitespace(s[..a])
      && s[a..a + |Trim(s)|] == Trim(s)
      && AllWhitespace(s[a + |Trim(s)|..])
  {
    var a := Span(s, 0, Whitespace);
    WhitespaceSpan(s, 0);
    assert s[..a] == s[0..0 + a];
    var t := s[a..];
    var r := TrimEnd(t);
    assert t[..|r|] == s[a..a + |r|];
    assert t[|r|..] == s[a + |r|..];
  }

  lemma {:induction false} TrimEndOf(x: string, back: string)
    requires AllWhitespace(back)
    requires x == [] || !IsWhitespace(x[|x| - 1])
    ensures TrimEnd(x + back) == x
    decreases |back|
  {
    if back == [] {
      assert x + back == x;
    } else {
      var s := x + back;
      assert s[..|s| - 1] == x + back[..|back| - 1];
      TrimEndOf(x, back[..|back| - 1]);
    }
  }

  /** The number of characters the lines take with one line break after each. */
  function LinesLen(lines: seq<string>): nat {
    if lines == [] then 0 else |lines[0]| + 1 + LinesLen(lines[1..])
  }

  lemma {:induction false} LinesLenSuffix(lines: seq<string>, i: nat)
    requires i <= |lines|
    ensures LinesLen(lines[i..]) <= LinesLen(lines)
    decreases i
  {
    if i > 0 {
      LinesLenSuffix(lines[1..], i - 1);
      assert lines[1..][i - 1..] == lines[i..];
    }
  }

  /**
   * `s.split(/\r?\n/)`: the pieces between line breaks, a break being `\n`
   * or `\r\n`. There is always at least one piece.
   */
  function SplitLines(s: string): (lines: seq<string>)
    ensures |lines| >= 1
    ensures LinesLen(lines) <= |s| + 1
    ensures forall k :: 0 <= k < |lines| ==> '\n' !in lines[k]
  {
    if s == [] then [""]
    else if s[0] == '\n' then [""] + SplitLines(s[1..])
    else if s[0] == '\r' && |s| >= 2 && s[1] == '\n' then [""] + SplitLines(s[2..])
    else
      var rest := SplitLines(s[1..]);
      [[s[0]] + rest[0]] + rest[1..]
  }

  /** `lines.join("\n")`. */
  function JoinLines(lines: seq<string>): string
    requires |lines| >= 1
  {
    if |lines| == 1 then lines[0] else lines[0] + "\n" + JoinLines(lines[1..])
  }

  /** The text of `lines` with a line break after each one. */
  function Unlines(lines: seq<string>): string {
    if lines == [] then "" else lines[0] + "\n" + Unlines(lines[1..])
  }

  lemma {:induction false} UnlinesAppend(a: seq<string>, b: seq<string>)
    ensures Unlines(a + b) == Unlines(a) + Unlines(b)
  {
    if a != [] {
      assert (a + b)[1..] == a[1..] + b;
      UnlinesAppend(a[1..], b);
    } else {
      assert a + b == b;
    }
  }

  lemma UnlinesSingle(a: string)
    ensures Unlines([a]) == a + "\n"
  {
    assert Unlines([a]) == a + "\n" + Unlines([]);
  }

  /** The text of a line, then of `mid`, then of a last line. */
  lemma UnlinesWrap(a: string, mid: seq<string>, b: string)
    ensures Unlines([a] + mid + [b]) == a + "\n" + Unlines(mid) + (b + "\n")
  {
    UnlinesAppend([a] + mid, [b]);
    UnlinesAppend([a], mid);
    UnlinesSingle(a);
    UnlinesSingle(b);
  }

  /** A single line followed by a break splits off as one piece. */
  lemma {:induction false} SplitLinesCons(line: string, t: string)
    requires SingleLine(line)
    ensures SplitLines(line + "\n" + t) == [line] + SplitLines(t)
    decreases |line|
  {
    var s := line + "\n" + t;
    if line == [] {
      assert s[0] == '\n' && s[1..] == t;
    } else {
      assert s[0] == line[0];
      assert s[1..] == line[1..] + "\n" + t;
      SplitLinesCons(line[1..], t);
      assert [line[0]] + line[1..] == line;
    }
  }

  /** Splitting the text of single lines gives back those lines, then the pieces of what follows. */
  lemma {:induction false} SplitUnlines(lines: seq<string>, t: string)
    requires forall k :: 0 <= k < |lines| ==> SingleLine(lines[k])
    ensures SplitLines(Unlines(lines) + t) == lines + SplitLines(t)
  {
    if lines != [] {
      SplitUnlines(lines[1..], t);
      SplitUnlinesStep(lines, t);
    } else {
      assert Unlines(lines) + t == t;
    }
  }

  lemma SplitUnlinesStep(lines: seq<string>, t: string)
    requires lines != [] && SingleLine(lines[0])
    requires SplitLines(Unlines(lines[1..]) + t) == lines[1..] + SplitLines(t)
    ensures SplitLines(Unlines(lines) + t) == lines + SplitLines(t)
  {
    var rest := Unlines(lines[1..]) + t;
    UnlinesCons(lines, t);
    SplitLinesCons(lines[0], rest);
    ConsAssoc(lines, SplitLines(t));
  }

  lemma UnlinesCons(lines: seq<string>, t: string)
    requires lines != []
    ensures Unlines(lines) + t == lines[0] + "\n" + (Unlines(lines[1..]) + t)
  {
  }

  lemma SliceCons<T>(s: seq<T>, i: nat, j: nat)
    requires i < j <= |s|
    ensures s[i..j] == [s[i]] + s[i + 1..j]
  {
  }

  /** Replaces the tail of a concatenation by a sequence equal to it. */
  lemma JoinTail<T>(r: seq<T>, a: seq<T>, r': seq<T>, b: seq<T>)
    requires r == a + r' && r' == b
    ensures r == a + b
  {
  }

  lemma ConcatAssoc<T>(a: seq<T>, b: seq<T>, c: seq<T>)
    ensures a + (b + c) == a + b + c
  {
  }

  lemma ConsAssoc<T>(a: seq<T>, b: seq<T>)
    requires a != []
    ensures [a[0]] + (a[1..] + b) == a + b
  {
  }

  /** A `\r\n` break splits like a `\n` break: the `\r` belongs to the break, not to the line before it. */
  lemma {:induction false} SplitLinesCrLf(line: string, t: string)
    requires '\n' !in line
    ensures SplitLines(line + "\r\n" + t) == [line] + SplitLines(t)
    decreases |line|
  {
    var s := line + "\r\n" + t;
    if line == [] {
      assert s[0] == '\r' && s[1] == '\n' && s[2..] == t;
    } else {
      assert s[0] == line[0] && s[0] != '\n';
      assert s[1..] == line[1..] + "\r\n" + t;
      assert s[0] == '\r' ==> s[1] != '\n' by {
        if |line| >= 2 { assert s[1] == line[1]; } else { assert s[1] == '\r'; }
      }
      SplitLinesCrLf(line[1..], t);
      assert [line[0]] + line[1..] == line;
    }
  }

  /** A single line splits into itself. */
  lemma {:induction false} SplitSingleLine(line: string)
    requires SingleLine(line)
    ensures SplitLines(line) == [line]
    decreases |line|
  {
    if line != [] {
      SplitSingleLine(line[1..]);
      assert [line[0]] + line[1..] == line;
    }
  }

  /** Joining with `\n` and splitting again is the identity on single lines. */
  lemma {:induction false} SplitJoinLines(lines: seq<string>)
    requires |lines| >= 1
    requires forall k :: 0 <= k < |lines| ==> SingleLine(lines[k])
    ensures SplitLines(JoinLines(lines)) == lines
  {
    if |lines| == 1 {
      SplitSingleLine(lines[0]);
    } else {
      SplitJoinLines(lines[1..]);
      SplitLinesCons(lines[0], JoinLines(lines[1..]));
      assert lines == [lines[0]] + lines[1..];
    }
  }

  function Clamp(i: int, len: nat): (r: nat)
    ensures r <= len
  {
    if i < 0 then 0 else if i > len then len else i
  }

  /** `s.substring(a, b)`: both ends clamped to `[0, |s|]` and swapped when `a > b`. */
  function Substring(s: string, a: int, b: int): (r: string)
    ensures |r| <= |s|
    ensures 0 <= a <= b <= |s| ==> r == s[a..b]
    ensures 0 <= b <= a <= |s| ==> r == s[b..a]
  {
    var lo := Clamp(a, |s|);
    var hi := Clamp(b, |s|);
    if lo <= hi then s[lo..hi] else s[hi..lo]
  }

  /** `s.replaceAll(c, "")`: `s` with every occurrence of `c` deleted. */
  function RemoveChar(s: string, c: char): (r: string)
    ensures c !in r
    ensures |r| <= |s|
    ensures c !in s ==> r == s
    ensures forall j :: 0 <= j < |r| ==> r[j] in s
  {
    if s == [] then ""
    else if s[0] == c then RemoveChar(s[1..], c)
    else [s[0]] + RemoveChar(s[1..], c)
  }

  /** `"  ".repeat(level)`: two spaces per level. */
  function Indent(level: nat): (r: string)
    ensures |r| == 2 * level
    ensures forall j :: 0 <= j < |r| ==> r[j] == ' '
  {
    if level == 0 then "" else "  " + Indent(level - 1)
  }
}
