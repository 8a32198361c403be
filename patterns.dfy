/**
 * The line classifiers of index.js:260-300 and the two patterns they are
 * built on (index.js:1-2):
 *
 *   valueRegex  = ^\s*([a-zA-Z0-9_]*):\s([a-zA-Z0-9/\-:._ \\{"]*)$
 *   objectRegex = ^\s*([a-zA-Z0-9_]*)\s{$
 *
 * Each pattern is written twice: as the shape a matching line has
 * (`ValueLineShape`, `ObjectLineShape`) and as a left-to-right scanner
 * (`MatchValue`, `MatchObject`) that returns the captured groups. The
 * scanners are proved to agree with the shapes in both directions, so the
 * captures are the ones the regular expression engine reports.
 */
module Patterns {
  import opened Wrappers
  import opened Strings

  /** The two groups `valueRegex` captures: the key and the value text. */
  datatype ValueCapture = ValueCapture(key: string, value: string)

  /**
   * `line` is leading whitespace `ws`, a key, a colon, one whitespace
   * character `sep` and a value made of the value class.
   */
  predicate ValueLineShape(line: string, ws: string, key: string, sep: char, value: string) {
    && line == ws + key + ":" + [sep] + value
    && AllWhitespace(ws) && AllKeyChars(key) && IsWhitespace(sep) && AllValueChars(value)
  }

  /** `valueRegex.exec(line)`: the captured key and value, or None when the line does not match. */
  function MatchValue(line: string): Option<ValueCapture> {
    var w := Span(line, 0, Whitespace);
    var c := w + Span(line, w, KeyChars);
    if c + 1 < |line| && line[c] == ':' && IsWhitespace(line[c + 1]) && AllValueChars(line[c + 2..]) then
      Some(ValueCapture(line[w..c], line[c + 2..]))
    else None
  }

  /**
   * `line` has the value shape with the groups of `cap`: what stands before
   * the key, the colon and the separator is the leading whitespace.
   */
  predicate CapturedShape(line: string, cap: ValueCapture) {
    var w := |line| - |cap.key| - |cap.value| - 2;
    0 <= w && ValueLineShape(line, line[..w], cap.key, line[w + |cap.key| + 1], cap.value)
  }

  /** Whatever `MatchValue` captures, the line has the value shape with exactly those groups. */
  lemma MatchValueSound(line: string, cap: ValueCapture)
    requires MatchValue(line) == Some(cap)
    ensures CapturedShape(line, cap)
  {
    var w := Span(line, 0, Whitespace);
    var c := w + Span(line, w, KeyChars);
    MatchedValueShape(line, w, c, cap);
  }

  /** The groups `MatchValue` cuts out of a matching line give it the value shape. */
  lemma MatchedValueShape(line: string, w: nat, c: nat, cap: ValueCapture)
    requires w == Span(line, 0, Whitespace) && c == w + Span(line, w, KeyChars)
    requires c + 1 < |line| && line[c] == ':' && IsWhitespace(line[c + 1]) && AllValueChars(line[c + 2..])
    requires cap == ValueCapture(line[w..c], line[c + 2..])
    ensures CapturedShape(line, cap)
  {
    WhitespaceSpan(line, 0);
    KeyCharSpan(line, w);
    assert line[..w] == line[0..0 + w];
    ValueShapeAt(line, w, c);
  }

  /** A line cut at `w` and at the colon `c` into the value groups has the value shape. */
  lemma ValueShapeAt(line: string, w: nat, c: nat)
    requires w <= c && c + 1 < |line| && line[c] == ':' && IsWhitespace(line[c + 1])
    requires AllWhitespace(line[..w]) && AllKeyChars(line[w..c]) && AllValueChars(line[c + 2..])
    ensures CapturedShape(line, ValueCapture(line[w..c], line[c + 2..]))
  {
    ValueLineSplit(line, w, c);
  }

  lemma ValueLineSplit(line: string, w: nat, c: nat)
    requires w <= c && c + 1 < |line| && line[c] == ':'
    ensures line == line[..w] + line[w..c] + ":" + [line[c + 1]] + line[c + 2..]
  {
    assert line[..c] == line[..w] + line[w..c];
    assert line == line[..c] + [line[c]] + [line[c + 1]] + line[c + 2..];
  }

  /** Every line of the value shape matches, with exactly that key and value captured. */
  lemma MatchValueComplete(line: string, ws: string, key: string, sep: char, value: string)
    requires ValueLineShape(line, ws, key, sep, value)
    ensures MatchValue(line) == Some(ValueCapture(key, value))
  {
    ValueLineParts(line, ws, key, sep, value);
    var w := Span(line, 0, Whitespace);
    SpanExact(line, 0, Whitespace, |ws|);
    SpanExact(line, w, KeyChars, |key|);
  }

  lemma ValueLineParts(line: string, ws: string, key: string, sep: char, value: string)
    requires ValueLineShape(line, ws, key, sep, value)
    ensures forall j :: 0 <= j < |ws| ==> IsWhitespace(line[j])
    ensures !IsWhitespace(line[|ws|])
    ensures forall j :: |ws| <= j < |ws| + |key| ==> IsKeyChar(line[j])
    ensures line[|ws| + |key|] == ':' && line[|ws| + |key| + 1] == sep
    ensures line[|ws|..|ws| + |key|] == key && line[|ws| + |key| + 2..] == value
  {
    assert forall j :: 0 <= j < |ws| ==> line[j] == ws[j];
    assert forall j :: 0 <= j < |key| ==> line[|ws| + j] == key[j];
    assert line[|ws|] == (if key == [] then ':' else key[0]);
  }

  /**
   * `line` is leading whitespace `ws`, a key, one whitespace character
   * `sep` and an opening brace.
   */
  predicate ObjectLineShape(line: string, ws: string, key: string, sep: char) {
    && line == ws + key + [sep] + "{"
    && AllWhitespace(ws) && AllKeyChars(key) && IsWhitespace(sep)
  }

  /**
   * `objectRegex.exec(line)`: the captured key, or None. The pattern ends
   * with whitespace and `{`; what is before them is whitespace then a key.
   */
  function MatchObject(line: string): Option<string> {
    if |line| >= 2 && line[|line| - 1] == '{' && IsWhitespace(line[|line| - 2]) then
      var p := line[..|line| - 2];
      var w := Span(p, 0, Whitespace);
      if AllKeyChars(p[w..]) then Some(p[w..]) else None
    else None
  }

  /** Whatever `MatchObject` captures, the line has the object shape with exactly that key. */
  lemma MatchObjectSound(line: string)
    ensures MatchObject(line).Some? ==>
      var key := MatchObject(line).value;
      var w := |line| - |key| - 2;
      0 <= w && ObjectLineShape(line, line[..w], key, line[|line| - 2])
  {
    if |line| >= 2 && line[|line| - 1] == '{' && IsWhitespace(line[|line| - 2]) {
      var p := line[..|line| - 2];
      var w := Span(p, 0, Whitespace);
      if AllKeyChars(p[w..]) {
        WhitespaceSpan(p, 0);
        assert p[0..0 + w] == line[..w];
        assert p[w..] == line[w..|line| - 2];
        ObjectShapeAt(line, w);
        assert MatchObject(line) == Some(line[w..|line| - 2]);
      }
    }
  }

  /** A line cut at `w` into whitespace and a key, then a whitespace character and `{`, has the object shape. */
  lemma ObjectShapeAt(line: string, w: nat)
    requires 2 <= |line| && w <= |line| - 2 && line[|line| - 1] == '{' && IsWhitespace(line[|line| - 2])
    requires AllWhitespace(line[..w]) && AllKeyChars(line[w..|line| - 2])
    ensures var key := line[w..|line| - 2];
      && |line| - |key| - 2 == w
      && ObjectLineShape(line, line[..w], key, line[|line| - 2])
  {
    assert line == line[..w] + line[w..|line| - 2] + [line[|line| - 2]] + "{";
  }

  /** Every line of the object shape matches, with exactly that key captured. */
  lemma MatchObjectComplete(line: string, ws: string, key: string, sep: char)
    requires ObjectLineShape(line, ws, key, sep)
    ensures MatchObject(line) == Some(key)
  {
    var p := line[..|line| - 2];
    assert p == ws + key;
    var w := Span(p, 0, Whitespace);
    if key == [] {
      assert AllWhitespace(p);
      assert w == |p|;
    } else {
      assert p[|ws|] == key[0];
      SpanExact(p, 0, Whitespace, |ws|);
    }
    assert p[w..] == key;
  }

  /** `_isValue`, index.js:260-262. */
  predicate IsValue(line: string) {
    MatchValue(line).Some?
  }

  /** `_isObjectStart`, index.js:290-292. */
  predicate IsObjectStart(line: string) {
    MatchObject(line).Some?
  }

  /** `_isObjectEnd`, index.js:298-300: the line ends with a closing brace. */
  predicate IsObjectEnd(line: string) {
    |line| > 0 && line[|line| - 1] == '}'
  }

  /** `_isSubTreeEnd`, index.js:282-284: the trimmed line is two double quotes. */
  predicate IsSubTreeEnd(line: string) {
    Trim(line) == "\"\""
  }

  /** A value line cannot close an object: `}` is not in the value class. */
  lemma ValueLineIsNotObjectEnd(line: string)
    requires IsValue(line)
    ensures !IsObjectEnd(line)
  {
    var cap := MatchValue(line).value;
    MatchValueSound(line, cap);
    if cap.value == [] {
      assert line[|line| - 1] == line[|line| - 1 - 0];
    } else {
      assert line[|line| - 1] == cap.value[|cap.value| - 1];
    }
  }

  /** Every character of an object start but its final `{` is whitespace or a key character. */
  lemma ObjectStartChars(line: string)
    requires IsObjectStart(line)
    ensures |line| >= 2 && line[|line| - 1] == '{'
    ensures forall j :: 0 <= j < |line| - 1 ==> IsWhitespace(line[j]) || IsKeyChar(line[j])
  {
    MatchObjectSound(line);
    var key := MatchObject(line).value;
    var w := |line| - |key| - 2;
    forall j | 0 <= j < |line| - 1 ensures IsWhitespace(line[j]) || IsKeyChar(line[j]) {
      if j < w {
        assert line[j] == line[..w][j];
      } else if j < w + |key| {
        assert line[j] == key[j - w];
      }
    }
  }

  /**
   * No line is both a value line and an object start: the colon after a
   * value line's key is neither whitespace nor a key character.
   */
  lemma ValueLineIsNoObjectStart(line: string)
    requires IsValue(line)
    ensures !IsObjectStart(line)
  {
    if IsObjectStart(line) {
      ObjectStartChars(line);
      assert false;
    }
  }

  /** An object start ends with `{`, so it never closes an object. */
  lemma ObjectStartIsNoObjectEnd(line: string)
    requires IsObjectStart(line)
    ensures !IsObjectEnd(line)
  {
    ObjectStartChars(line);
  }

  /** Every character of a `""` line is whitespace or a double quote. */
  lemma SubTreeEndChars(line: string)
    requires IsSubTreeEnd(line)
    ensures forall j :: 0 <= j < |line| ==> IsWhitespace(line[j]) || line[j] == '"'
  {
    TrimSplit(line);
    var a := Span(line, 0, Whitespace);
    forall j | 0 <= j < |line| ensures IsWhitespace(line[j]) || line[j] == '"' {
      if j < a {
        assert line[j] == line[..a][j];
      } else if j < a + 2 {
        assert line[j] == line[a..a + 2][j - a];
      } else {
        assert line[j] == line[a + 2..][j - a - 2];
      }
    }
  }

  /**
   * The `""` line that ends an embedded document is no value line, no
   * object start and no object end.
   */
  lemma SubTreeEndIsNoOther(line: string)
    requires IsSubTreeEnd(line)
    ensures !IsValue(line) && !IsObjectStart(line) && !IsObjectEnd(line)
  {
    SubTreeEndChars(line);
    if IsValue(line) {
      assert false;
    }
    if |line| > 0 {
      assert IsWhitespace(line[|line| - 1]) || line[|line| - 1] == '"';
    }
  }

  /** An indented `""`, the last line of an embedded document written from the root, ends it. */
  lemma IndentedQuotesEndSubTree(level: nat)
    ensures IsSubTreeEnd(Indent(level) + "\"\"")
  {
    TrimOf(Indent(level), "\"\"", "");
    assert Indent(level) + "\"\"" + "" == Indent(level) + "\"\"";
  }

  /**
   * `s.replaceAll(/(\\+X)/g, "")` for the character `c` standing for `X`:
   * every run of backslashes that is followed by `c` is deleted together
   * with that `c`.
   */
  function RemoveEscapeRuns(s: string, c: char): (r: string)
    requires c != '\\'
    ensures |r| <= |s|
    ensures '\\' !in s ==> r == s
    ensures |s| > 0 && s[0] != '\\' && s[0] != c ==> |r| > 0 && r[0] == s[0]
    ensures forall j :: 0 <= j < |r| - 1 && r[j] == '\\' ==> r[j + 1] != c
    decreases |s|
  {
    if s == [] then ""
    else if s[0] == '\\' then
      var n := Span(s, 0, Backslashes);
      SpanRun(s, 0, Backslashes);
      if n < |s| && s[n] == c then RemoveEscapeRuns(s[n + 1..], c)
      else
        var rest := RemoveEscapeRuns(s[n..], c);
        assert n < |s| ==> rest[0] == s[n];
        s[..n] + rest
    else [s[0]] + RemoveEscapeRuns(s[1..], c)
  }

  /** A run of backslashes followed by `c` is deleted together with the `c`. */
  lemma RemoveEscapeRunsDrop(run: string, t: string, c: char)
    requires c != '\\' && |run| > 0 && forall j :: 0 <= j < |run| ==> run[j] == '\\'
    ensures RemoveEscapeRuns(run + [c] + t, c) == RemoveEscapeRuns(t, c)
  {
    var s := run + [c] + t;
    SpanExact(s, 0, Backslashes, |run|);
    assert s[|run| + 1..] == t;
  }

  /** A whole run of backslashes not followed by `c` is kept. */
  lemma RemoveEscapeRunsKeep(run: string, t: string, c: char)
    requires c != '\\' && |run| > 0 && forall j :: 0 <= j < |run| ==> run[j] == '\\'
    requires t == [] || (t[0] != c && t[0] != '\\')
    ensures RemoveEscapeRuns(run + t, c) == run + RemoveEscapeRuns(t, c)
  {
    var s := run + t;
    SpanExact(s, 0, Backslashes, |run|);
    assert s[..|run|] == run && s[|run|..] == t;
  }

  /** A backslash and a quote are kept when escaped `n`s are deleted. */
  lemma RemoveEscapeRunsQuote(tail: string)
    ensures RemoveEscapeRuns(['\\'] + (['"'] + tail), 'n') == ['\\'] + (['"'] + RemoveEscapeRuns(tail, 'n'))
  {
    RemoveEscapeRunsCons('"', tail, 'n');
    RemoveEscapeRunsKeep(['\\'], ['"'] + tail, 'n');
  }

  /** A character other than a backslash is kept, whatever follows it. */
  lemma RemoveEscapeRunsCons(x: char, t: string, c: char)
    requires c != '\\' && x != '\\'
    ensures RemoveEscapeRuns([x] + t, c) == [x] + RemoveEscapeRuns(t, c)
  {
    assert ([x] + t)[1..] == t;
  }

  /**
   * `_isSubTreeValue`, index.js:268-276: the value is quoted and, once the
   * escaped line breaks and escaped quotes are deleted, what is between
   * the quotes is itself a value line or an object start.
   */
  predicate IsSubTreeValue(value: string) {
    && StartsWith(value, "\"") && EndsWith(value, "\"")
    && var inner := RemoveEscapeRuns(RemoveEscapeRuns(Substring(value, 1, |value| - 1), 'n'), '"');
       IsValue(inner) || IsObjectStart(inner)
  }

  /**
   * A sub-tree value has two quotes: a lone `"` is both quoted at the
   * start and at the end, but what `substring` leaves of it is `"` again,
   * which is no line.
   */
  lemma SubTreeValueHasTwoQuotes(value: string)
    requires IsSubTreeValue(value)
    ensures |value| >= 2 && value[0] == '"' && value[|value| - 1] == '"'
  {
    LoneQuoteIsNoSubTree(value);
    assert value[0] == value[..1][0];
    assert value[|value| - 1] == value[|value| - 1..][0];
  }

  /**
   * The converse for text without backslashes: a value line or an object
   * start in double quotes is a sub-tree value.
   */
  lemma QuotedLineIsSubTreeValue(inner: string)
    requires '\\' !in inner && (IsValue(inner) || IsObjectStart(inner))
    ensures IsSubTreeValue("\"" + inner + "\"")
  {
    var v := "\"" + inner + "\"";
    assert v[..1] == "\"" && v[|v| - 1..] == "\"";
    assert Substring(v, 1, |v| - 1) == v[1..|v| - 1] == inner;
  }

  /**
   * Text in double quotes is a sub-tree value when, once its escaped line
   * breaks and escaped quotes are deleted, it is a value line or an object
   * start.
   */
  lemma QuotedIsSubTreeValue(inner: string)
    requires var line := RemoveEscapeRuns(RemoveEscapeRuns(inner, 'n'), '"'); IsValue(line) || IsObjectStart(line)
    ensures IsSubTreeValue("\"" + inner + "\"")
  {
    var v := "\"" + inner + "\"";
    assert v[..1] == "\"" && v[|v| - 1..] == "\"";
    assert Substring(v, 1, |v| - 1) == v[1..|v| - 1] == inner;
  }

  lemma LoneQuoteIsNoSubTree(value: string)
    ensures |value| < 2 ==> !IsSubTreeValue(value)
  {
    if |value| == 1 && value[0] == '"' {
      var q := "\"";
      assert value == q;
      assert Substring(value, 1, 0) == q;
      assert Span(q, 0, Backslashes) == 0;
      assert RemoveEscapeRuns(q, 'n') == q;
      assert RemoveEscapeRuns(q, '"') == q;
      assert MatchValue(q).None?;
      assert MatchObject(q).None?;
    }
  }
}
