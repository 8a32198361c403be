/**
 * Embedded sub-documents (index.js:116-135, 306-358).
 *
 * A node of type `"tree"` is written as one quoted value whose text is a
 * whole serialized document, escaped by four `replaceAll` passes
 * (index.js:119-122). Reading it back, `_getSubTreeRaw` collects the text
 * between the first and last double quote of each line up to a line that is
 * just `""`, and undoes the escaping with four more passes
 * (index.js:347-350).
 *
 * Every pass has the shape `s.replaceAll(/(?<!g)(P)/g, R)`: a left-to-right
 * scan that replaces each occurrence of `P` that is not directly after the
 * character `g`, resuming after the occurrence it replaced. The lookbehind
 * reads the string being scanned, never the text already produced.
 */
module Escaping {
  import opened Wrappers
  import opened Strings
  import opened Patterns

  /** `pat` occurs at `i` in `s` and the character before it, if any, is not `guard`. */
  predicate MatchesAt(s: string, i: nat, pat: string, guard: char) {
    && i + |pat| <= |s|
    && s[i..i + |pat|] == pat
    && !(i > 0 && s[i - 1] == guard)
  }

  /** The part from `from` on of `s.replaceAll(/(?<!guard)(pat)/g, rep)`. */
  function ReplaceAllNotAfter(s: string, from: nat, pat: string, rep: string, guard: char): (r: string)
    requires |pat| > 0 && from <= |s|
    ensures |rep| <= |pat| ==> |r| <= |s| - from
    decreases |s| - from
  {
    if from == |s| then ""
    else if MatchesAt(s, from, pat, guard) then
      rep + ReplaceAllNotAfter(s, from + |pat|, pat, rep, guard)
    else
      [s[from]] + ReplaceAllNotAfter(s, from + 1, pat, rep, guard)
  }

  /**
   * The scan copies the text before the first unguarded occurrence at or
   * after `from`, writes `rep` in its place and goes on right after it.
   */
  lemma ReplaceAllNotAfterStep(s: string, from: nat, j: nat, pat: string, rep: string, guard: char)
    requires |pat| > 0 && from <= j < |s|
    requires MatchesAt(s, j, pat, guard)
    requires forall i :: from <= i < j ==> !MatchesAt(s, i, pat, guard)
    ensures ReplaceAllNotAfter(s, from, pat, rep, guard) ==
      s[from..j] + rep + ReplaceAllNotAfter(s, j + |pat|, pat, rep, guard)
  {
    ScanCopies(s, from, j - from, pat, rep, guard);
    ConcatAssoc(s[from..j], rep, ReplaceAllNotAfter(s, j + |pat|, pat, rep, guard));
  }

  /** Where `pat` never occurs unguarded from `from` on, the scan copies the rest of the text. */
  lemma ReplaceAllNotAfterCopies(s: string, from: nat, pat: string, rep: string, guard: char)
    requires |pat| > 0 && from <= |s|
    ensures (forall i :: from <= i < |s| ==> !MatchesAt(s, i, pat, guard)) ==>
      ReplaceAllNotAfter(s, from, pat, rep, guard) == s[from..]
  {
    if forall i :: from <= i < |s| ==> !MatchesAt(s, i, pat, guard) {
      ScanCopies(s, from, |s| - from, pat, rep, guard);
      assert s[from..|s|] + "" == s[from..];
    }
  }

  /** Where `pat` occurs unguarded, the scan writes `rep` and goes on after the occurrence. */
  lemma ScanTake(s: string, from: nat, pat: string, rep: string, guard: char)
    requires |pat| > 0 && from < |s| && MatchesAt(s, from, pat, guard)
    ensures ReplaceAllNotAfter(s, from, pat, rep, guard) == rep + ReplaceAllNotAfter(s, from + |pat|, pat, rep, guard)
  {
  }

  /** Where `pat` does not occur unguarded, the scan copies one character. */
  lemma ScanSkip(s: string, from: nat, pat: string, rep: string, guard: char)
    requires |pat| > 0 && from < |s| && !MatchesAt(s, from, pat, guard)
    ensures ReplaceAllNotAfter(s, from, pat, rep, guard) == [s[from]] + ReplaceAllNotAfter(s, from + 1, pat, rep, guard)
  {
  }

  /** Over a stretch where `pat` does not occur unguarded, the scan copies the text. */
  lemma {:induction false} ScanCopies(s: string, from: nat, k: nat, pat: string, rep: string, guard: char)
    requires |pat| > 0 && from + k <= |s|
    requires forall i :: from <= i < from + k ==> !MatchesAt(s, i, pat, guard)
    ensures ReplaceAllNotAfter(s, from, pat, rep, guard) ==
      s[from..from + k] + ReplaceAllNotAfter(s, from + k, pat, rep, guard)
    decreases k
  {
    var tail := ReplaceAllNotAfter(s, from + k, pat, rep, guard);
    if k == 0 {
      assert s[from..from + k] == [];
    } else {
      ScanSkip(s, from, pat, rep, guard);
      ScanCopies(s, from + 1, k - 1, pat, rep, guard);
      SliceCons(s, from, from + k);
      ConsJoin(ReplaceAllNotAfter(s, from, pat, rep, guard), ReplaceAllNotAfter(s, from + 1, pat, rep, guard),
        s[from], s[from + 1..from + k], s[from..from + k], tail);
    }
  }

  lemma ConsJoin(r: string, r': string, c: char, mid: string, whole: string, tail: string)
    requires r == [c] + r' && r' == mid + tail && whole == [c] + mid
    ensures r == whole + tail
  { }

  /** The whole of `s.replaceAll(/(?<!guard)(pat)/g, rep)`. */
  function ReplaceAll(s: string, pat: string, rep: string, guard: char): (r: string)
    requires |pat| > 0
    ensures |rep| <= |pat| ==> |r| <= |s|
    ensures (forall i :: 0 <= i < |s| ==> !MatchesAt(s, i, pat, guard)) ==> r == s
  {
    ReplaceAllNotAfterCopies(s, 0, pat, rep, guard);
    ReplaceAllNotAfter(s, 0, pat, rep, guard)
  }

  /**
   * The four escape passes of index.js:119-122, in order: an escaped quote
   * gets two more backslashes, a bare quote one, a written `\n` one more
   * backslash, and a line break not directly after `n` gets a written `\n`
   * in front of it.
   */
  function EscapeSubTree(s: string): (r: string)
    ensures '\\' !in s && '"' !in s && '\n' !in s ==> r == s
  {
    NoMatchWithout(s, "\\\"", '\\');
    NoMatchWithout(s, "\"", '\\');
    NoMatchWithout(s, "\\n", '\\');
    NoMatchWithout(s, "\n", 'n');
    var s1 := ReplaceAll(s, "\\\"", "\\\\\\\"", '\\');
    var s2 := ReplaceAll(s1, "\"", "\\\"", '\\');
    var s3 := ReplaceAll(s2, "\\n", "\\\\n", '\\');
    ReplaceAll(s3, "\n", "\\n\n", 'n')
  }

  /**
   * The four unescape passes of index.js:347-350, in order: `\\n` and a line
   * break become quote, line break, quote; a written `\n` is deleted; an
   * escaped quote loses its backslash; three backslashes and a quote become
   * one backslash and a quote. None of them makes the text longer.
   */
  function UnescapeSubTree(s: string): (r: string)
    ensures |r| <= |s|
  {
    var s1 := ReplaceAll(s, "\\\\n\n", "\"\n\"", '\\');
    var s2 := ReplaceAll(s1, "\\n", "", '\\');
    var s3 := ReplaceAll(s2, "\\\"", "\"", '\\');
    ReplaceAll(s3, "\\\\\\\"", "\\\"", '\\')
  }

  /** Text without backslashes is left alone by the unescape passes. */
  lemma UnescapeWithoutBackslash(s: string)
    requires '\\' !in s
    ensures UnescapeSubTree(s) == s
  {
    NoMatchWithout(s, "\\\\n\n", '\\');
    var s1 := ReplaceAll(s, "\\\\n\n", "\"\n\"", '\\');
    NoMatchWithout(s1, "\\n", '\\');
    NoMatchWithout(s1, "\\\"", '\\');
    NoMatchWithout(s1, "\\\\\\\"", '\\');
  }

  /** A pattern whose first character does not occur in the text occurs nowhere in it. */
  lemma NoMatchWithout(s: string, pat: string, guard: char)
    requires |pat| > 0
    ensures pat[0] !in s ==> forall i :: 0 <= i < |s| ==> !MatchesAt(s, i, pat, guard)
  {
    forall i | 0 <= i < |s| && pat[0] !in s ensures !MatchesAt(s, i, pat, guard) {
      if i + |pat| <= |s| {
        assert s[i..i + |pat|][0] == s[i];
      }
    }
  }

  /** A character with a double quote written as backslash and quote. */
  function QuoteChunk(c: char): string {
    if c == '"' then "\\\"" else [c]
  }

  /**
   * A character as the escape passes write it, `afterN` telling whether the
   * character before it is `n`: a quote after a backslash, a line break
   * after a written `\n` unless it follows an `n`.
   */
  function EscapeChunk(c: char, afterN: bool): string {
    if c == '"' then "\\\"" else if c == '\n' && !afterN then "\\n\n" else [c]
  }

  /** `s` with every double quote written as backslash and quote. */
  function QuotesEscaped(s: string): string {
    if s == [] then "" else QuoteChunk(s[0]) + QuotesEscaped(s[1..])
  }

  /**
   * `s`, whose first character follows an `n` when `afterN`, with every
   * double quote written as backslash and quote, and every line break that
   * does not follow an `n` preceded by a written `\n`.
   */
  function EscapedAfter(s: string, afterN: bool): string {
    if s == [] then "" else EscapeChunk(s[0], afterN) + EscapedAfter(s[1..], s[0] == 'n')
  }

  /** `s` as the escape passes write it: its first character follows nothing. */
  function Escaped(s: string): string {
    EscapedAfter(s, false)
  }

  /** Splits text without backslashes into its first character and the rest, chunk by chunk. */
  lemma Uncons(t: string)
    requires t != [] && '\\' !in t
    ensures t[0] != '\\' && '\\' !in t[1..] && t == [t[0]] + t[1..]
    ensures QuotesEscaped(t) == QuoteChunk(t[0]) + QuotesEscaped(t[1..])
  {
    assert t[0] in t;
  }

  /** Unescaping undoes escaping on text without backslashes. */
  lemma EscapeRoundTrip(s: string)
    requires '\\' !in s
    ensures UnescapeSubTree(EscapeSubTree(s)) == s
  {
    EscapeSubTreeOf(s);
    var q := QuotesEscaped(s);
    var e := Escaped(s);
    DoubleBackslashPass(e, 0, s, false);
    UnwriteBreakPass(e, 0, s, false);
    UnquotePass(q, 0, s);
    NoMatchWithout(s, "\\\\\\\"", '\\');
  }

  /**
   * On text without backslashes, the four escape passes write every double
   * quote as backslash and quote, put a written `\n` before every line break
   * that does not follow an `n`, and copy every other character.
   */
  lemma EscapeSubTreeOf(s: string)
    requires '\\' !in s
    ensures EscapeSubTree(s) == Escaped(s)
  {
    NoMatchWithout(s, "\\\"", '\\');
    QuotePass(s, 0);
    var q := QuotesEscaped(s);
    WrittenBreakPass(q, 0, s);
    assert BreakReady(q, 0, s, false);
    BreakPass(q, 0, s, false);
  }

  /** The second escape pass on text without backslashes escapes every quote. */
  lemma {:induction false} QuotePass(s: string, p: nat)
    requires '\\' !in s && p <= |s|
    ensures ReplaceAllNotAfter(s, p, "\"", "\\\"", '\\') == QuotesEscaped(s[p..])
    decreases |s| - p
  {
    if p < |s| {
      assert s[p..][1..] == s[p + 1..];
      if s[p] == '"' {
        MatchOne(s, p, "\"", '\\');
      } else {
        Mismatch(s, p, "\"", '\\', 0);
      }
      QuotePass(s, p + 1);
    }
  }

  /** The third escape pass finds no written `\n` in text whose only backslashes escape quotes. */
  lemma {:induction false} WrittenBreakPass(x: string, p: nat, t: string)
    requires p <= |x| && x[p..] == QuotesEscaped(t) && '\\' !in t
    ensures ReplaceAllNotAfter(x, p, "\\n", "\\\\n", '\\') == QuotesEscaped(t)
    decreases |t|
  {
    if t == [] {
      assert x[p..] == [];
    } else {
      Uncons(t);
      var n := WrittenBreakStep(x, p, t[0], QuotesEscaped(t[1..]));
      WrittenBreakPass(x, p + n, t[1..]);
      JoinTail(ReplaceAllNotAfter(x, p, "\\n", "\\\\n", '\\'), QuoteChunk(t[0]),
        ReplaceAllNotAfter(x, p + n, "\\n", "\\\\n", '\\'), QuotesEscaped(t[1..]));
    }
  }

  lemma WrittenBreakStep(x: string, p: nat, c: char, rest: string) returns (n: nat)
    requires p <= |x| && x[p..] == QuoteChunk(c) + rest && c != '\\'
    ensures 0 < n && p + n <= |x| && x[p + n..] == rest
    ensures ReplaceAllNotAfter(x, p, "\\n", "\\\\n", '\\') ==
      QuoteChunk(c) + ReplaceAllNotAfter(x, p + n, "\\n", "\\\\n", '\\')
  {
    if c == '"' {
      assert QuoteChunk(c) == "\\\"";
      n := EscapedQuoteStep(x, p, rest, "\\n", "\\\\n");
    } else {
      assert QuoteChunk(c) == [c];
      n := CopyOtherStep(x, p, c, rest, "\\n", "\\\\n", '\\');
    }
  }

  /**
   * A pass whose pattern starts with a backslash that is not followed by a
   * quote copies an escaped quote `\"` and goes on after it.
   */
  lemma EscapedQuoteStep(x: string, p: nat, rest: string, pat: string, rep: string) returns (n: nat)
    requires p <= |x| && x[p..] == "\\\"" + rest
    requires |pat| >= 2 && pat[0] == '\\' && pat[1] != '"'
    ensures n == 2 && p + n <= |x| && x[p + n..] == rest
    ensures ReplaceAllNotAfter(x, p, pat, rep, '\\') ==
      "\\\"" + ReplaceAllNotAfter(x, p + n, pat, rep, '\\')
  {
    n := Chunk(x, p, "\\\"", rest);
    ChunkNoMatch(x, p, "\\\"", rest, 0, pat, '\\', 1);
    ChunkNoMatch(x, p, "\\\"", rest, 1, pat, '\\', 0);
    ScanCopies(x, p, n, pat, rep, '\\');
  }

  /**
   * The fourth escape pass at `p` of `x`, which holds the quote-escaped `t`;
   * `afterN` tells whether the character before `p` is `n`.
   */
  predicate BreakReady(x: string, p: nat, t: string, afterN: bool) {
    && p <= |x| && x[p..] == QuotesEscaped(t) && '\\' !in t
    && (FollowsNo(x, p, 'n') <==> !afterN)
  }

  lemma {:induction false} BreakPass(x: string, p: nat, t: string, afterN: bool)
    requires BreakReady(x, p, t, afterN)
    ensures ReplaceAllNotAfter(x, p, "\n", "\\n\n", 'n') == EscapedAfter(t, afterN)
    decreases |t|
  {
    if t == [] {
      assert x[p..] == [];
    } else {
      var n := BreakHead(x, p, t, afterN);
      BreakPass(x, p + n, t[1..], t[0] == 'n');
      JoinTail(ReplaceAllNotAfter(x, p, "\n", "\\n\n", 'n'), EscapeChunk(t[0], afterN),
        ReplaceAllNotAfter(x, p + n, "\n", "\\n\n", 'n'), EscapedAfter(t[1..], t[0] == 'n'));
    }
  }

  lemma BreakHead(x: string, p: nat, t: string, afterN: bool) returns (n: nat)
    requires BreakReady(x, p, t, afterN) && t != []
    ensures p + n <= |x| && BreakReady(x, p + n, t[1..], t[0] == 'n')
    ensures |t[1..]| < |t|
    ensures ReplaceAllNotAfter(x, p, "\n", "\\n\n", 'n') ==
      EscapeChunk(t[0], afterN) + ReplaceAllNotAfter(x, p + n, "\n", "\\n\n", 'n')
  {
    Uncons(t);
    n := BreakStep(x, p, t[0], QuotesEscaped(t[1..]), afterN);
  }

  lemma BreakStep(x: string, p: nat, c: char, rest: string, afterN: bool) returns (n: nat)
    requires p <= |x| && x[p..] == QuoteChunk(c) + rest
    requires FollowsNo(x, p, 'n') <==> !afterN
    ensures 0 < n && p + n <= |x| && x[p + n..] == rest && x[p + n - 1] == c
    ensures ReplaceAllNotAfter(x, p, "\n", "\\n\n", 'n') ==
      EscapeChunk(c, afterN) + ReplaceAllNotAfter(x, p + n, "\n", "\\n\n", 'n')
  {
    if c == '"' {
      n := BreakQuoteChunk(x, p, c, rest, afterN);
    } else if c == '\n' && !afterN {
      n := BreakLineChunk(x, p, c, rest);
    } else if c == '\n' {
      n := BreakAfterNChunk(x, p, c, rest);
    } else {
      n := BreakOtherChunk(x, p, c, rest, afterN);
    }
  }

  /** A line break directly after an `n` is left alone by the fourth escape pass. */
  lemma BreakAfterNChunk(x: string, p: nat, c: char, rest: string) returns (n: nat)
    requires c == '\n' && p <= |x| && x[p..] == QuoteChunk(c) + rest && !FollowsNo(x, p, 'n')
    ensures n == 1 && p + n <= |x| && x[p + n..] == rest && x[p + n - 1] == c
    ensures ReplaceAllNotAfter(x, p, "\n", "\\n\n", 'n') ==
      EscapeChunk(c, true) + ReplaceAllNotAfter(x, p + n, "\n", "\\n\n", 'n')
  {
    assert QuoteChunk(c) == EscapeChunk(c, true) == [c];
    n := Chunk(x, p, [c], rest);
    assert !MatchesAt(x, p, "\n", 'n');
    ScanCopies(x, p, n, "\n", "\\n\n", 'n');
  }

  lemma BreakQuoteChunk(x: string, p: nat, c: char, rest: string, afterN: bool) returns (n: nat)
    requires c == '"' && p <= |x| && x[p..] == QuoteChunk(c) + rest
    ensures 0 < n && p + n <= |x| && x[p + n..] == rest && x[p + n - 1] == c
    ensures ReplaceAllNotAfter(x, p, "\n", "\\n\n", 'n') ==
      EscapeChunk(c, afterN) + ReplaceAllNotAfter(x, p + n, "\n", "\\n\n", 'n')
  {
    assert QuoteChunk(c) == EscapeChunk(c, afterN) == "\\\"";
    n := BreakQuoteStep(x, p, rest);
  }

  lemma BreakLineChunk(x: string, p: nat, c: char, rest: string) returns (n: nat)
    requires c == '\n' && p <= |x| && x[p..] == QuoteChunk(c) + rest && FollowsNo(x, p, 'n')
    ensures 0 < n && p + n <= |x| && x[p + n..] == rest && x[p + n - 1] == c
    ensures ReplaceAllNotAfter(x, p, "\n", "\\n\n", 'n') ==
      EscapeChunk(c, false) + ReplaceAllNotAfter(x, p + n, "\n", "\\n\n", 'n')
  {
    assert QuoteChunk(c) == "\n" && EscapeChunk(c, false) == "\\n\n";
    n := BreakLineStep(x, p, rest);
  }

  lemma BreakOtherChunk(x: string, p: nat, c: char, rest: string, afterN: bool) returns (n: nat)
    requires c != '"' && c != '\n' && p <= |x| && x[p..] == QuoteChunk(c) + rest
    ensures 0 < n && p + n <= |x| && x[p + n..] == rest && x[p + n - 1] == c
    ensures ReplaceAllNotAfter(x, p, "\n", "\\n\n", 'n') ==
      EscapeChunk(c, afterN) + ReplaceAllNotAfter(x, p + n, "\n", "\\n\n", 'n')
  {
    assert QuoteChunk(c) == EscapeChunk(c, afterN) == [c];
    n := CopyOtherStep(x, p, c, rest, "\n", "\\n\n", 'n');
  }

  lemma BreakLineStep(x: string, p: nat, rest: string) returns (n: nat)
    requires p <= |x| && x[p..] == "\n" + rest && FollowsNo(x, p, 'n')
    ensures n == 1 && p + n <= |x| && x[p + n..] == rest && x[p + n - 1] == '\n'
    ensures ReplaceAllNotAfter(x, p, "\n", "\\n\n", 'n') ==
      "\\n\n" + ReplaceAllNotAfter(x, p + n, "\n", "\\n\n", 'n')
  {
    ChunkTaken(x, p, "\n", rest, "\\n\n", 'n');
    n := 1;
  }

  lemma BreakQuoteStep(x: string, p: nat, rest: string) returns (n: nat)
    requires p <= |x| && x[p..] == "\\\"" + rest
    ensures n == 2 && p + n <= |x| && x[p + n..] == rest && x[p + n - 1] == '"'
    ensures ReplaceAllNotAfter(x, p, "\n", "\\n\n", 'n') ==
      "\\\"" + ReplaceAllNotAfter(x, p + n, "\n", "\\n\n", 'n')
  {
    n := Chunk(x, p, "\\\"", rest);
    ChunkNoMatch(x, p, "\\\"", rest, 0, "\n", 'n', 0);
    ChunkNoMatch(x, p, "\\\"", rest, 1, "\n", 'n', 0);
    ScanCopies(x, p, n, "\n", "\\n\n", 'n');
  }

  /** A character that does not start `pat` is copied unchanged. */
  lemma CopyOtherStep(x: string, p: nat, c: char, rest: string, pat: string, rep: string, guard: char) returns (n: nat)
    requires p <= |x| && x[p..] == [c] + rest && |pat| > 0 && c != pat[0]
    ensures n == 1 && p + n <= |x| && x[p + n..] == rest && x[p + n - 1] == c
    ensures ReplaceAllNotAfter(x, p, pat, rep, guard) == [c] + ReplaceAllNotAfter(x, p + n, pat, rep, guard)
  {
    n := Chunk(x, p, [c], rest);
    ChunkNoMatch(x, p, [c], rest, 0, pat, guard, 0);
    ScanCopies(x, p, n, pat, rep, guard);
  }

  /** The first unescape pass finds no `\\n` and line break in escaped text: its backslashes are never doubled. */
  lemma {:induction false} DoubleBackslashPass(x: string, p: nat, t: string, afterN: bool)
    requires p <= |x| && x[p..] == EscapedAfter(t, afterN) && '\\' !in t
    ensures ReplaceAllNotAfter(x, p, "\\\\n\n", "\"\n\"", '\\') == EscapedAfter(t, afterN)
    decreases |t|
  {
    if t == [] {
      assert x[p..] == [];
    } else {
      var n := DoubleBackslashHead(x, p, t, afterN);
      DoubleBackslashPass(x, p + n, t[1..], t[0] == 'n');
      JoinTail(ReplaceAllNotAfter(x, p, "\\\\n\n", "\"\n\"", '\\'), EscapeChunk(t[0], afterN),
        ReplaceAllNotAfter(x, p + n, "\\\\n\n", "\"\n\"", '\\'), EscapedAfter(t[1..], t[0] == 'n'));
    }
  }

  lemma DoubleBackslashHead(x: string, p: nat, t: string, afterN: bool) returns (n: nat)
    requires p <= |x| && x[p..] == EscapedAfter(t, afterN) && '\\' !in t && t != []
    ensures p + n <= |x| && x[p + n..] == EscapedAfter(t[1..], t[0] == 'n') && '\\' !in t[1..]
    ensures |t[1..]| < |t| && EscapedAfter(t, afterN) == EscapeChunk(t[0], afterN) + EscapedAfter(t[1..], t[0] == 'n')
    ensures ReplaceAllNotAfter(x, p, "\\\\n\n", "\"\n\"", '\\') ==
      EscapeChunk(t[0], afterN) + ReplaceAllNotAfter(x, p + n, "\\\\n\n", "\"\n\"", '\\')
  {
    Uncons(t);
    n := DoubleBackslashStep(x, p, t[0], afterN, EscapedAfter(t[1..], t[0] == 'n'));
  }

  lemma DoubleBackslashStep(x: string, p: nat, c: char, afterN: bool, rest: string) returns (n: nat)
    requires p <= |x| && x[p..] == EscapeChunk(c, afterN) + rest && c != '\\'
    ensures 0 < n && p + n <= |x| && x[p + n..] == rest
    ensures ReplaceAllNotAfter(x, p, "\\\\n\n", "\"\n\"", '\\') ==
      EscapeChunk(c, afterN) + ReplaceAllNotAfter(x, p + n, "\\\\n\n", "\"\n\"", '\\')
  {
    if c == '"' {
      assert EscapeChunk(c, afterN) == "\\\"";
      n := EscapedQuoteStep(x, p, rest, "\\\\n\n", "\"\n\"");
    } else if c == '\n' && !afterN {
      assert EscapeChunk(c, afterN) == "\\n\n";
      n := DoubleBackslashLineStep(x, p, rest);
    } else {
      assert EscapeChunk(c, afterN) == [c];
      n := CopyOtherStep(x, p, c, rest, "\\\\n\n", "\"\n\"", '\\');
    }
  }

  lemma DoubleBackslashLineStep(x: string, p: nat, rest: string) returns (n: nat)
    requires p <= |x| && x[p..] == "\\n\n" + rest
    ensures n == 3 && p + n <= |x| && x[p + n..] == rest
    ensures ReplaceAllNotAfter(x, p, "\\\\n\n", "\"\n\"", '\\') ==
      "\\n\n" + ReplaceAllNotAfter(x, p + n, "\\\\n\n", "\"\n\"", '\\')
  {
    n := Chunk(x, p, "\\n\n", rest);
    ChunkNoMatch(x, p, "\\n\n", rest, 0, "\\\\n\n", '\\', 1);
    ChunkNoMatch(x, p, "\\n\n", rest, 1, "\\\\n\n", '\\', 0);
    ChunkNoMatch(x, p, "\\n\n", rest, 2, "\\\\n\n", '\\', 0);
    ScanCopies(x, p, n, "\\\\n\n", "\"\n\"", '\\');
  }

  /** The second unescape pass deletes every written `\n` of escaped text. */
  lemma {:induction false} UnwriteBreakPass(x: string, p: nat, t: string, afterN: bool)
    requires p <= |x| && x[p..] == EscapedAfter(t, afterN) && '\\' !in t
    requires FollowsNo(x, p, '\\')
    ensures ReplaceAllNotAfter(x, p, "\\n", "", '\\') == QuotesEscaped(t)
    decreases |t|
  {
    if t == [] {
      assert x[p..] == [];
    } else {
      var n := UnwriteBreakHead(x, p, t, afterN);
      UnwriteBreakPass(x, p + n, t[1..], t[0] == 'n');
      JoinTail(ReplaceAllNotAfter(x, p, "\\n", "", '\\'), QuoteChunk(t[0]),
        ReplaceAllNotAfter(x, p + n, "\\n", "", '\\'), QuotesEscaped(t[1..]));
    }
  }

  lemma UnwriteBreakHead(x: string, p: nat, t: string, afterN: bool) returns (n: nat)
    requires p <= |x| && x[p..] == EscapedAfter(t, afterN) && '\\' !in t && t != []
    requires FollowsNo(x, p, '\\')
    ensures p + n <= |x| && x[p + n..] == EscapedAfter(t[1..], t[0] == 'n') && '\\' !in t[1..]
    ensures FollowsNo(x, p + n, '\\')
    ensures |t[1..]| < |t| && QuotesEscaped(t) == QuoteChunk(t[0]) + QuotesEscaped(t[1..])
    ensures ReplaceAllNotAfter(x, p, "\\n", "", '\\') ==
      QuoteChunk(t[0]) + ReplaceAllNotAfter(x, p + n, "\\n", "", '\\')
  {
    Uncons(t);
    n := UnwriteBreakStep(x, p, t[0], afterN, EscapedAfter(t[1..], t[0] == 'n'));
  }

  lemma UnwriteBreakStep(x: string, p: nat, c: char, afterN: bool, rest: string) returns (n: nat)
    requires p <= |x| && x[p..] == EscapeChunk(c, afterN) + rest && c != '\\'
    requires FollowsNo(x, p, '\\')
    ensures 0 < n && p + n <= |x| && x[p + n..] == rest && FollowsNo(x, p + n, '\\')
    ensures ReplaceAllNotAfter(x, p, "\\n", "", '\\') ==
      QuoteChunk(c) + ReplaceAllNotAfter(x, p + n, "\\n", "", '\\')
  {
    if c == '"' {
      assert QuoteChunk(c) == EscapeChunk(c, afterN) == "\\\"";
      n := UnwriteQuoteStep(x, p, rest);
    } else if c == '\n' && !afterN {
      assert QuoteChunk(c) == "\n" && EscapeChunk(c, afterN) == "\\n\n";
      n := UnwriteBreakChunk(x, p, rest);
    } else {
      assert QuoteChunk(c) == EscapeChunk(c, afterN) == [c];
      n := CopyOtherStep(x, p, c, rest, "\\n", "", '\\');
    }
  }

  lemma UnwriteQuoteStep(x: string, p: nat, rest: string) returns (n: nat)
    requires p <= |x| && x[p..] == "\\\"" + rest
    ensures n == 2 && p + n <= |x| && x[p + n..] == rest && x[p + n - 1] == '"'
    ensures ReplaceAllNotAfter(x, p, "\\n", "", '\\') ==
      "\\\"" + ReplaceAllNotAfter(x, p + n, "\\n", "", '\\')
  {
    n := Chunk(x, p, "\\\"", rest);
    ChunkNoMatch(x, p, "\\\"", rest, 0, "\\n", '\\', 1);
    ChunkNoMatch(x, p, "\\\"", rest, 1, "\\n", '\\', 0);
    ScanCopies(x, p, n, "\\n", "", '\\');
  }

  lemma UnwriteBreakChunk(x: string, p: nat, rest: string) returns (n: nat)
    requires p <= |x| && x[p..] == "\\n\n" + rest && FollowsNo(x, p, '\\')
    ensures n == 3 && p + n <= |x| && x[p + n..] == rest && x[p + n - 1] == '\n'
    ensures ReplaceAllNotAfter(x, p, "\\n", "", '\\') ==
      "\n" + ReplaceAllNotAfter(x, p + n, "\\n", "", '\\')
  {
    assert x[p..] == "\\n" + ("\n" + rest);
    ChunkTaken(x, p, "\\n", "\n" + rest, "", '\\');
    var one := CopyOtherStep(x, p + 2, '\n', rest, "\\n", "", '\\');
    n := 3;
  }

  /** The third unescape pass turns every escaped quote back into a quote. */
  lemma {:induction false} UnquotePass(x: string, p: nat, t: string)
    requires p <= |x| && x[p..] == QuotesEscaped(t) && '\\' !in t
    requires FollowsNo(x, p, '\\')
    ensures ReplaceAllNotAfter(x, p, "\\\"", "\"", '\\') == t
    decreases |t|
  {
    if t == [] {
      assert x[p..] == [];
    } else {
      var n := UnquoteHead(x, p, t);
      UnquotePass(x, p + n, t[1..]);
      JoinTail(ReplaceAllNotAfter(x, p, "\\\"", "\"", '\\'), [t[0]],
        ReplaceAllNotAfter(x, p + n, "\\\"", "\"", '\\'), t[1..]);
    }
  }

  lemma UnquoteHead(x: string, p: nat, t: string) returns (n: nat)
    requires p <= |x| && x[p..] == QuotesEscaped(t) && '\\' !in t && t != []
    requires FollowsNo(x, p, '\\')
    ensures p + n <= |x| && x[p + n..] == QuotesEscaped(t[1..]) && '\\' !in t[1..] && FollowsNo(x, p + n, '\\')
    ensures |t[1..]| < |t| && t == [t[0]] + t[1..]
    ensures ReplaceAllNotAfter(x, p, "\\\"", "\"", '\\') ==
      [t[0]] + ReplaceAllNotAfter(x, p + n, "\\\"", "\"", '\\')
  {
    Uncons(t);
    n := UnquoteStep(x, p, t[0], QuotesEscaped(t[1..]));
  }

  lemma UnquoteStep(x: string, p: nat, c: char, rest: string) returns (n: nat)
    requires p <= |x| && x[p..] == QuoteChunk(c) + rest && c != '\\'
    requires FollowsNo(x, p, '\\')
    ensures 0 < n && p + n <= |x| && x[p + n..] == rest && FollowsNo(x, p + n, '\\')
    ensures ReplaceAllNotAfter(x, p, "\\\"", "\"", '\\') == [c] + ReplaceAllNotAfter(x, p + n, "\\\"", "\"", '\\')
  {
    if c == '"' {
      assert QuoteChunk(c) == "\\\"";
      ChunkTaken(x, p, "\\\"", rest, "\"", '\\');
      n := 2;
    } else {
      assert QuoteChunk(c) == [c];
      n := CopyOtherStep(x, p, c, rest, "\\\"", "\"", '\\');
    }
  }

  /** The character before position `p` of `x`, if there is one, is not `c`. */
  predicate FollowsNo(x: string, p: nat, c: char) {
    p == 0 || (p <= |x| && x[p - 1] != c)
  }

  /** Where the text from `p` on starts with an unguarded `pat`, the scan writes `rep` for it and goes on after it. */
  lemma ChunkTaken(x: string, p: nat, pat: string, rest: string, rep: string, guard: char)
    requires p <= |x| && x[p..] == pat + rest && |pat| > 0 && FollowsNo(x, p, guard)
    ensures p + |pat| <= |x| && x[p + |pat|..] == rest && x[p + |pat| - 1] == pat[|pat| - 1]
    ensures ReplaceAllNotAfter(x, p, pat, rep, guard) == rep + ReplaceAllNotAfter(x, p + |pat|, pat, rep, guard)
  {
    var n := Chunk(x, p, pat, rest);
    ChunkMatch(x, p, pat, rest, pat, guard);
    ScanTake(x, p, pat, rep, guard);
  }

  /** `x` holds the chunk `w` and then `rest` from `p` on; `n` is the length of the chunk. */
  lemma Chunk(x: string, p: nat, w: string, rest: string) returns (n: nat)
    requires p <= |x| && x[p..] == w + rest
    ensures n == |w| && p + n <= |x| && x[p + n..] == rest && x[p..p + n] == w
    ensures n > 0 ==> x[p + n - 1] == w[n - 1]
  {
    n := |w|;
    assert x[p..][n..] == rest;
    assert x[p..][..n] == w;
    if n > 0 {
      assert x[p..][n - 1] == x[p + n - 1];
    }
  }

  /** `pat` does not occur at offset `i` of a chunk `w` when the chunk differs from it at offset `k`. */
  lemma ChunkNoMatch(x: string, p: nat, w: string, rest: string, i: nat, pat: string, guard: char, k: nat)
    requires p <= |x| && x[p..] == w + rest && i + k < |w| && k < |pat| && w[i + k] != pat[k]
    ensures !MatchesAt(x, p + i, pat, guard)
  {
    if p + i + |pat| <= |x| {
      assert x[p + i..p + i + |pat|][k] == x[p..][i + k];
    }
  }

  /** An unguarded occurrence of `pat` at the start of a chunk that begins with it. */
  lemma ChunkMatch(x: string, p: nat, w: string, rest: string, pat: string, guard: char)
    requires p <= |x| && x[p..] == w + rest && |pat| <= |w| && w[..|pat|] == pat
    requires p > 0 ==> x[p - 1] != guard
    ensures MatchesAt(x, p, pat, guard)
  {
    assert x[p..p + |pat|] == x[p..][..|pat|];
  }

  /** `pat` does not occur at `p` when the text differs from it at offset `k`. */
  lemma Mismatch(x: string, p: nat, pat: string, guard: char, k: nat)
    requires k < |pat| && (p + |pat| <= |x| ==> x[p + k] != pat[k])
    ensures !MatchesAt(x, p, pat, guard)
  {
    if p + |pat| <= |x| {
      assert x[p..p + |pat|][k] == x[p + k];
    }
  }

  /** An unguarded occurrence of `pat` at `p`. */
  lemma MatchOne(x: string, p: nat, pat: string, guard: char)
    requires p + |pat| <= |x| && (forall k :: 0 <= k < |pat| ==> x[p + k] == pat[k])
    requires p > 0 ==> x[p - 1] != guard
    ensures MatchesAt(x, p, pat, guard)
  {
    assert x[p..p + |pat|] == pat;
  }

  /** `_getFirstQuotesIndex`, index.js:306-313: the index of the first `"`, or -1. */
  function FirstQuoteIndex(line: string): (r: int)
    ensures -1 <= r < |line|
    ensures r == -1 <==> '"' !in line
    ensures r >= 0 ==> line[r] == '"' && '"' !in line[..r]
  {
    if line == [] then -1
    else if line[0] == '"' then 0
    else
      var r := FirstQuoteIndex(line[1..]);
      assert line[1..] == line[..|line|][1..];
      if r == -1 then -1
      else
        assert line[..r + 1] == [line[0]] + line[1..][..r];
        r + 1
  }

  /** `_getLastQuotesIndex`, index.js:319-326: the index of the last `"`, or -1. */
  function LastQuoteIndex(line: string): (r: int)
    ensures -1 <= r < |line|
    ensures r == -1 <==> '"' !in line
    ensures r >= 0 ==> line[r] == '"' && '"' !in line[r + 1..]
  {
    if line == [] then -1
    else if line[|line| - 1] == '"' then |line| - 1
    else
      var r := LastQuoteIndex(line[..|line| - 1]);
      assert line == line[..|line| - 1] + [line[|line| - 1]];
      if r >= 0 then
        assert line[r + 1..] == line[..|line| - 1][r + 1..] + [line[|line| - 1]];
        r
      else r
  }

  /**
   * `line.substring(first + 1, last)` for the first and last quote of the
   * line (index.js:345): the text between them. On a line with one quote
   * the two ends cross, `substring` swaps them and the result is that quote
   * itself; on a line with none both ends clamp to 0 and the result is empty.
   */
  function QuotedPart(line: string): (r: string)
    ensures |r| <= |line|
    ensures 0 <= FirstQuoteIndex(line) < LastQuoteIndex(line) ==>
      r == line[FirstQuoteIndex(line) + 1..LastQuoteIndex(line)]
    ensures 0 <= FirstQuoteIndex(line) == LastQuoteIndex(line) ==> r == "\""
    ensures '"' !in line ==> r == ""
  {
    Substring(line, FirstQuoteIndex(line) + 1, LastQuoteIndex(line))
  }

  /** What `_getSubTreeRaw` returns: the number of lines it read and the sub-document. */
  datatype SubTreeRaw = SubTreeRaw(parsedLines: nat, content: string)

  /**
   * The loop of index.js:337-346 from line `i` on: every line up to the
   * first `""` line adds its quoted part and a line break; the `""` line is
   * counted but adds nothing; without one, all remaining lines are read.
   */
  function CollectSubTree(lines: seq<string>, i: nat): (r: SubTreeRaw)
    requires i <= |lines|
    ensures r.parsedLines <= |lines| - i
    ensures i < |lines| ==> r.parsedLines >= 1
    decreases |lines| - i
  {
    if i == |lines| then SubTreeRaw(0, "")
    else if IsSubTreeEnd(lines[i]) then SubTreeRaw(1, "")
    else
      var rest := CollectSubTree(lines, i + 1);
      SubTreeRaw(rest.parsedLines + 1, QuotedPart(lines[i]) + "\n" + rest.content)
  }

  /** A line that is not a `""` line is collected and collecting goes on after it. */
  lemma CollectSubTreeStep(lines: seq<string>, i: nat)
    requires i < |lines| && !IsSubTreeEnd(lines[i])
    ensures CollectSubTree(lines, i).parsedLines == CollectSubTree(lines, i + 1).parsedLines + 1
  {
  }

  /** A `""` line ends the sub-document: it is counted and collecting stops. */
  lemma CollectSubTreeEnd(lines: seq<string>, i: nat)
    requires i < |lines| && IsSubTreeEnd(lines[i])
    ensures CollectSubTree(lines, i).parsedLines == 1
  {
  }

  /** Collecting reads past line `j` only when line `j` is not a `""` line. */
  lemma {:induction false} CollectSubTreePasses(lines: seq<string>, i: nat, j: nat)
    requires i <= j < |lines| && j < i + CollectSubTree(lines, i).parsedLines - 1
    ensures !IsSubTreeEnd(lines[j])
    decreases j - i
  {
    if IsSubTreeEnd(lines[i]) {
      CollectSubTreeEnd(lines, i);
    } else if j > i {
      CollectSubTreeStep(lines, i);
      CollectSubTreePasses(lines, i + 1, j);
    }
  }

  /** When lines remain after the sub-document, its last line `k` is the first `""` line. */
  lemma {:induction false} CollectSubTreeLast(lines: seq<string>, i: nat, k: nat)
    requires i <= k && k + 1 < |lines|
    requires k + 1 == i + CollectSubTree(lines, i).parsedLines
    ensures IsSubTreeEnd(lines[k])
    decreases k - i
  {
    if IsSubTreeEnd(lines[i]) {
      CollectSubTreeEnd(lines, i);
    } else {
      CollectSubTreeStep(lines, i);
      CollectSubTreeLast(lines, i + 1, k);
    }
  }

  /** The collected sub-document is no longer than the lines it was collected from. */
  lemma {:induction false} CollectSubTreeLength(lines: seq<string>, i: nat)
    requires i <= |lines|
    ensures |CollectSubTree(lines, i).content| <= LinesLen(lines[i..])
    decreases |lines| - i
  {
    if i < |lines| && !IsSubTreeEnd(lines[i]) {
      CollectSubTreeLength(lines, i + 1);
      assert lines[i..][1..] == lines[i + 1..];
    }
  }

  /**
   * `_getSubTreeRaw`, index.js:334-358: the collected text, unescaped, with
   * one trailing line break removed.
   */
  function GetSubTreeRaw(lineIndex: nat, lines: seq<string>): (r: SubTreeRaw)
    requires lineIndex < |lines|
    ensures 1 <= r.parsedLines <= |lines| - lineIndex
    ensures r.parsedLines == CollectSubTree(lines, lineIndex).parsedLines
    ensures var c := UnescapeSubTree(CollectSubTree(lines, lineIndex).content);
      && (EndsWith(c, "\n") ==> r.content + "\n" == c)
      && (!EndsWith(c, "\n") ==> r.content == c)
    ensures |r.content| <= |CollectSubTree(lines, lineIndex).content|
  {
    var raw := CollectSubTree(lines, lineIndex);
    var c := UnescapeSubTree(raw.content);
    SubTreeRaw(raw.parsedLines, if EndsWith(c, "\n") then c[..|c| - 1] else c)
  }

  /**
   * The sub-document read from a line `key: "..."` is at least four
   * characters shorter than the lines it was read from: the key, the
   * colon, the separator and the two quotes are not part of it. This is
   * what makes reading nested sub-documents terminate.
   */
  lemma SubTreeShrinks(lines: seq<string>, i: nat)
    requires i < |lines| && IsValue(lines[i]) && IsSubTreeValue(MatchValue(lines[i]).value.value)
    ensures |GetSubTreeRaw(i, lines).content| + 4 <= LinesLen(lines[i..])
  {
    var line := lines[i];
    assert lines[i..][1..] == lines[i + 1..];
    if !IsSubTreeEnd(line) {
      FirstValueLineQuotedPart(line);
      var rest := CollectSubTree(lines, i + 1);
      CollectSubTreeLength(lines, i + 1);
      assert |CollectSubTree(lines, i).content| == |QuotedPart(line)| + 1 + |rest.content|;
    }
  }

  /** On a value line holding a sub-tree value, the quoted part drops at least four characters. */
  lemma FirstValueLineQuotedPart(line: string)
    requires IsValue(line) && IsSubTreeValue(MatchValue(line).value.value)
    ensures |QuotedPart(line)| + 4 <= |line|
  {
    var cap := MatchValue(line).value;
    SubTreeValueHasTwoQuotes(cap.value);
    CapturedQuotedValue(line, cap);
  }

  /** A value line whose captured value starts and ends with a quote: the quoted part drops four characters or more. */
  lemma CapturedQuotedValue(line: string, cap: ValueCapture)
    requires MatchValue(line) == Some(cap)
    requires |cap.value| >= 2 && cap.value[0] == '"' && cap.value[|cap.value| - 1] == '"'
    ensures |QuotedPart(line)| + 4 <= |line|
  {
    MatchValueSound(line, cap);
    var w := |line| - |cap.key| - |cap.value| - 2;
    QuotedValueShape(line, line[..w], cap.key, line[w + |cap.key| + 1], cap.value);
  }

  /** A value line whose value starts and ends with a quote: the quoted part is the value without its quotes. */
  lemma QuotedValueShape(line: string, ws: string, key: string, sep: char, value: string)
    requires ValueLineShape(line, ws, key, sep, value)
    requires |value| >= 2 && value[0] == '"' && value[|value| - 1] == '"'
    ensures |QuotedPart(line)| + 4 <= |line|
  {
    var p := |ws| + |key| + 2;
    ValuePrefixHasNoQuote(line, ws, key, sep, value);
    assert line[p..] == value;
    assert line[p] == value[0];
    assert line[|line| - 1] == value[|value| - 1];
    QuotedPartBetween(line, p);
  }

  /** The quoted part of a line whose first quote is at `p` and whose last character is a quote. */
  lemma QuotedPartBetween(line: string, p: nat)
    requires p + 1 < |line| && line[p] == '"' && '"' !in line[..p] && line[|line| - 1] == '"'
    ensures |QuotedPart(line)| == |line| - p - 2
  {
    FirstQuoteAt(line, p);
    assert LastQuoteIndex(line) == |line| - 1;
  }

  /** Before the value of a value line there is no double quote. */
  lemma ValuePrefixHasNoQuote(line: string, ws: string, key: string, sep: char, value: string)
    requires ValueLineShape(line, ws, key, sep, value)
    ensures '"' !in line[..|ws| + |key| + 2]
  {
    var p := |ws| + |key| + 2;
    forall j | 0 <= j < p ensures line[j] != '"' {
      if j < |ws| {
        assert line[j] == ws[j];
      } else if j < |ws| + |key| {
        assert line[j] == key[j - |ws|];
      } else if j == |ws| + |key| + 1 {
        assert line[j] == sep;
      }
    }
  }

  lemma FirstQuoteAt(line: string, p: nat)
    requires p < |line| && line[p] == '"' && '"' !in line[..p]
    ensures FirstQuoteIndex(line) == p
  {
  }
}
