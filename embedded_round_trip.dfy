/**
 * Writing a root whose one child is an embedded tree, and reading it back.
 *
 * The serializer writes the child's own children as a sub-document,
 * escapes it, cuts it into lines and quotes them one by one after
 * `key: "`; a `""` line closes it. The reader recognises the first line as
 * a sub-tree value, collects the quoted parts up to the `""` line,
 * unescapes them, drops the final line break and reads the sub-document
 * again. This module proves that the child comes back exactly when its
 * children are plain, when it has at least one, and when the text written
 * for them holds no backslash.
 */
module EmbeddedRoundTrip {
  import opened Wrappers
  import opened Strings
  import opened TreeModel
  import opened Patterns
  import opened Escaping
  import opened Serializer
  import opened Deserializer
  import opened RoundTrip

  /**
   * The written `\n` the fourth escape pass puts at the end of a line,
   * before its line break: none when the line ends with `n`.
   */
  function BreakMarker(line: string): string {
    if line != [] && line[|line| - 1] == 'n' then "" else "\\n"
  }

  /** The lines of an escaped sub-document: each line with its quotes escaped and its break marker at its end. */
  function EscapedLines(lines: seq<string>): (r: seq<string>)
    ensures |r| == |lines|
    ensures forall j :: 0 <= j < |r| ==> r[j] == QuotesEscaped(lines[j]) + BreakMarker(lines[j])
  {
    if lines == [] then [] else [QuotesEscaped(lines[0]) + BreakMarker(lines[0])] + EscapedLines(lines[1..])
  }

  /** `s` between double quotes. */
  function Quoted(s: string): string {
    "\"" + s + "\""
  }

  /**
   * The lines a root writes for an embedded tree named `key` whose escaped
   * lines are `el`: the first after `key: "` and closed by a quote, the
   * others quoted on both sides, and a last `""` line.
   */
  function OuterLines(key: string, el: seq<string>): (r: seq<string>)
    requires |el| >= 1
    ensures |r| == |el| + 1
    ensures r[0] == key + ":" + [' '] + Quoted(el[0])
    ensures forall j :: 1 <= j < |el| ==> r[j] == Quoted(el[j])
    ensures r[|el|] == Quoted("")
  {
    [key + ":" + [' '] + Quoted(el[0])] + seq(|el| - 1, j requires 0 <= j < |el| - 1 => Quoted(el[j + 1])) + [Quoted("")]
  }

  /**
   * A root holding one embedded tree with plain children reads back as
   * itself: the child keeps its key, its type `"tree"` and its children.
   */
  lemma EmbeddedTreeRoundTrip(tree: Node, t: Node)
    requires tree == Node("root", "tree", Null, [t])
    requires t == Node(t.key, "tree", Null, t.nodes) && AllKeyChars(t.key)
    requires PlainForest(t.nodes) && t.nodes != []
    requires '\\' !in SerializeTree(t.nodes, 0, false)
    ensures Deserialize(Serialize(tree)) == Ok(tree)
  {
    var lines := ForestLines(t.nodes, 0);
    var el := EscapedLines(lines);
    SubDocument(t.nodes, lines, el);
    EscapedLinesSingle(lines, el);
    var outer := OuterLines(t.key, el);
    SerializedOuter(tree, t, lines, el);
    OuterLinesSingle(t.key, el);
    ReadOuter(outer + [""], t, lines, el);
    DeserializeLines(Serialize(tree), outer, [t]);
  }

  /** Text made of single lines, each followed by a line break, reads as what those lines read as. */
  lemma DeserializeLines(text: string, outer: seq<string>, ns: seq<Node>)
    requires forall j :: 0 <= j < |outer| ==> SingleLine(outer[j])
    requires text == Unlines(outer) && ParseLines(outer + [""], 0) == Ok(ns)
    ensures Deserialize(text) == Ok(Node("root", "tree", Null, ns))
  {
    SplitUnlines(outer, "");
    assert text + "" == text;
  }

  /**
   * The sub-document of plain children: its text is their lines; escaped,
   * it is the escaped lines; unescaped again, it is the text; and its first
   * line, with quotes deleted, is a value line or an object start.
   */
  lemma SubDocument(ns: seq<Node>, lines: seq<string>, el: seq<string>)
    requires PlainForest(ns) && ns != [] && '\\' !in SerializeTree(ns, 0, false)
    requires lines == ForestLines(ns, 0) && el == EscapedLines(lines)
    ensures |lines| >= 1 && SerializeTree(ns, 0, false) == Unlines(lines)
    ensures forall j :: 0 <= j < |lines| ==> SingleLine(lines[j]) && lines[j] != []
    ensures EscapeSubTree(Unlines(lines)) == Unlines(el)
    ensures UnescapeSubTree(Unlines(el)) == Unlines(lines)
    ensures '\\' !in lines[0] && AllValueChars(lines[0])
    ensures IsValue(RemoveChar(lines[0], '"')) || IsObjectStart(RemoveChar(lines[0], '"'))
  {
    SerializeForestLines(ns, 0, false);
    ForestLinesSingle(ns, 0);
    FirstOfForest(ns);
    SubDocumentEscapes(lines, el);
  }

  /** The first line of plain children is the first line of the first child. */
  lemma FirstOfForest(ns: seq<Node>)
    requires PlainForest(ns) && ns != []
    ensures var lines := ForestLines(ns, 0);
      |lines| >= 1 && AllValueChars(lines[0])
      && (IsValue(RemoveChar(lines[0], '"')) || IsObjectStart(RemoveChar(lines[0], '"')))
  {
    var lines := ForestLines(ns, 0);
    assert lines == NodeLines(ns[0], 0) + ForestLines(ns[1..], 0);
    assert lines[0] == NodeLines(ns[0], 0)[0];
    FirstLineIsLine(ns[0]);
  }

  /** Text without backslashes, made of single lines: escaping gives the escaped lines, and unescaping undoes it. */
  lemma SubDocumentEscapes(lines: seq<string>, el: seq<string>)
    requires |lines| >= 1 && '\\' !in Unlines(lines) && el == EscapedLines(lines)
    requires forall j :: 0 <= j < |lines| ==> SingleLine(lines[j]) && lines[j] != []
    ensures EscapeSubTree(Unlines(lines)) == Unlines(el)
    ensures UnescapeSubTree(Unlines(el)) == Unlines(lines)
    ensures '\\' !in lines[0]
  {
    var s := Unlines(lines);
    EscapeSubTreeOf(s);
    EscapedUnlines(lines);
    EscapeRoundTrip(s);
    PrefixHasNoBackslash(lines[0] + "\n", Unlines(lines[1..]));
    PrefixHasNoBackslash(lines[0], "\n");
  }

  lemma PrefixHasNoBackslash(a: string, b: string)
    requires '\\' !in a + b
    ensures '\\' !in a
  {
    forall j | 0 <= j < |a| ensures a[j] != '\\' {
      assert a[j] == (a + b)[j];
    }
  }

  /** The first line of a plain node is made of value characters and, with quotes deleted, is a value line or an object start. */
  lemma FirstLineIsLine(n: Node)
    requires PlainNode(n)
    ensures var a := NodeLines(n, 0)[0];
      AllValueChars(a) && (IsValue(RemoveChar(a, '"')) || IsObjectStart(RemoveChar(a, '"')))
  {
    var a := NodeLines(n, 0)[0];
    if PlainScalar(n) {
      ScalarLineIsValueLine(n, 0);
      var r := ValueRendering(n);
      PlainRendering(n);
      ValueCharsLine(Indent(0), n.key, r);
      assert a == Indent(0) + n.key + ":" + [' '] + r;
      QuoteFreeValueLine(a, Indent(0), n.key, r);
    } else {
      OpenLineFacts(n.key, 0);
      OpenLineQuoteFree(n.key);
    }
  }

  /** An opening line holds no quote and only value characters. */
  lemma OpenLineQuoteFree(key: string)
    requires AllKeyChars(key)
    ensures var a := OpenLine(key, 0); '"' !in a && AllValueChars(a) && RemoveChar(a, '"') == a
  {
    var a := OpenLine(key, 0);
    assert a == key + " {";
    forall j | 0 <= j < |a| ensures a[j] != '"' && IsValueChar(a[j]) {
      if j < |key| {
        assert a[j] == key[j];
      }
    }
  }

  /** A value line keeps its shape when its quotes are deleted: they can only stand in the value. */
  lemma QuoteFreeValueLine(line: string, ws: string, key: string, value: string)
    requires ValueLineShape(line, ws, key, ' ', value)
    ensures IsValue(RemoveChar(line, '"'))
  {
    var prefix := ws + key + ":" + [' '];
    assert line == prefix + value;
    forall j | 0 <= j < |prefix| ensures prefix[j] != '"' {
      if j < |ws| {
        assert prefix[j] == ws[j];
      } else if j < |ws| + |key| {
        assert prefix[j] == key[j - |ws|];
      }
    }
    RemoveCharAppend(prefix, value, '"');
    var v := RemoveChar(value, '"');
    forall j | 0 <= j < |v| ensures IsValueChar(v[j]) {
      var k :| 0 <= k < |value| && value[k] == v[j];
    }
    MatchValueComplete(prefix + v, ws, key, ' ', v);
  }

  lemma {:induction false} RemoveCharAppend(a: string, b: string, c: char)
    ensures RemoveChar(a + b, c) == RemoveChar(a, c) + RemoveChar(b, c)
  {
    if a == [] {
      assert a + b == b;
    } else {
      assert (a + b)[0] == a[0] && (a + b)[1..] == a[1..] + b;
      RemoveCharAppend(a[1..], b, c);
    }
  }

  /** Escaping text whose lines are non-empty and hold no line break gives the escaped lines. */
  lemma {:induction false} EscapedUnlines(lines: seq<string>)
    requires forall j :: 0 <= j < |lines| ==> SingleLine(lines[j]) && lines[j] != []
    ensures Escaped(Unlines(lines)) == Unlines(EscapedLines(lines))
  {
    if lines != [] {
      var a := lines[0];
      var rest := Unlines(lines[1..]);
      EscapedUnlines(lines[1..]);
      EscapedAppend(a + "\n", rest, false);
      assert (a + "\n")[|a + "\n"| - 1] == '\n';
      EscapedLine(a);
      var el := EscapedLines(lines);
      assert el == [QuotesEscaped(a) + BreakMarker(a)] + EscapedLines(lines[1..]);
      assert el[1..] == EscapedLines(lines[1..]);
    }
  }

  /** A non-empty single line and its break are escaped as the quote-escaped line, its break marker and the break. */
  lemma EscapedLine(a: string)
    requires SingleLine(a) && a != []
    ensures Escaped(a + "\n") == QuotesEscaped(a) + BreakMarker(a) + "\n"
  {
    EscapedAppend(a, "\n", false);
    assert EscapedAfter("\n", a[|a| - 1] == 'n') == BreakMarker(a) + "\n";
    EscapedSingleLine(a, false);
  }

  /** Escaping two joined texts escapes the second in the context of the first's last character. */
  lemma {:induction false} EscapedAppend(a: string, b: string, afterN: bool)
    ensures EscapedAfter(a + b, afterN) ==
      EscapedAfter(a, afterN) + EscapedAfter(b, if a == [] then afterN else a[|a| - 1] == 'n')
  {
    if a == [] {
      assert a + b == b;
    } else {
      assert (a + b)[0] == a[0] && (a + b)[1..] == a[1..] + b;
      EscapedAppend(a[1..], b, a[0] == 'n');
      if a[1..] != [] {
        assert a[1..][|a[1..]| - 1] == a[|a| - 1];
      }
      ConcatAssoc(EscapeChunk(a[0], afterN), EscapedAfter(a[1..], a[0] == 'n'),
        EscapedAfter(b, if a == [] then afterN else a[|a| - 1] == 'n'));
    }
  }

  /** On a single line escaping writes only the quotes. */
  lemma {:induction false} EscapedSingleLine(a: string, afterN: bool)
    requires SingleLine(a)
    ensures EscapedAfter(a, afterN) == QuotesEscaped(a)
  {
    if a != [] {
      EscapedSingleLine(a[1..], a[0] == 'n');
    }
  }

  /** Escaping quotes adds only backslashes. */
  lemma {:induction false} QuotesEscapedChars(a: string)
    ensures forall j :: 0 <= j < |QuotesEscaped(a)| ==> QuotesEscaped(a)[j] == '\\' || QuotesEscaped(a)[j] in a
  {
    if a != [] {
      QuotesEscapedChars(a[1..]);
      var q := QuotesEscaped(a);
      var head := QuoteChunk(a[0]);
      var tail := QuotesEscaped(a[1..]);
      assert q == head + tail;
      assert a[0] in a;
      forall j | 0 <= j < |q| ensures q[j] == '\\' || q[j] in a {
        if j < |head| {
          assert q[j] == head[j];
        } else {
          assert q[j] == tail[j - |head|];
          if q[j] != '\\' {
            var k :| 0 <= k < |a| - 1 && a[1..][k] == q[j];
            assert a[k + 1] == q[j];
          }
        }
      }
    }
  }

  /** Quote escaping keeps the last character of a line that does not end with a quote. */
  lemma {:induction false} QuotesEscapedLast(a: string)
    requires a != [] && a[|a| - 1] != '"'
    ensures |QuotesEscaped(a)| >= 1 && QuotesEscaped(a)[|QuotesEscaped(a)| - 1] == a[|a| - 1]
  {
    if |a| > 1 {
      QuotesEscapedLast(a[1..]);
      assert a[1..][|a[1..]| - 1] == a[|a| - 1];
    }
  }

  /** An escaped line of a single non-empty line of value characters is a single line of value characters ending in `n`. */
  lemma EscapedLineChars(a: string)
    requires SingleLine(a) && a != []
    ensures var e := QuotesEscaped(a) + BreakMarker(a);
      SingleLine(e) && |e| >= 1 && e[|e| - 1] == 'n'
    ensures AllValueChars(a) ==> AllValueChars(QuotesEscaped(a) + BreakMarker(a))
  {
    QuotesEscapedChars(a);
    var q := QuotesEscaped(a);
    var m := BreakMarker(a);
    var e := q + m;
    if m == "" {
      QuotesEscapedLast(a);
    }
    forall j | 0 <= j < |e| ensures e[j] != '\n' && e[j] != '\r' && (AllValueChars(a) ==> IsValueChar(e[j])) {
      if j < |q| {
        assert e[j] == q[j];
        if q[j] != '\\' {
          var k :| 0 <= k < |a| && a[k] == q[j];
        }
      }
    }
  }

  /** The serialized root is the outer lines, each followed by a line break. */
  lemma SerializedOuter(tree: Node, t: Node, lines: seq<string>, el: seq<string>)
    requires tree == Node("root", "tree", Null, [t]) && t.kind == "tree"
    requires |lines| >= 1 && el == EscapedLines(lines)
    requires forall j :: 0 <= j < |lines| ==> SingleLine(lines[j]) && lines[j] != []
    requires EscapeSubTree(SerializeTree(t.nodes, 0, false)) == Unlines(el)
    ensures Serialize(tree) == Unlines(OuterLines(t.key, el))
  {
    EscapedLinesSingle(lines, el);
    SplitUnlines(el, "");
    assert Unlines(el) + "" == Unlines(el);
    var q := QuoteRootLines(el + [""], 0);
    var prefix := Indent(0) + t.key + ": \"";
    RootLinesAreOuter(t.key, el, q);
    JoinLinesPrefix(prefix, q);
    UnlinesOfJoin(OuterLines(t.key, el));
    assert [t][1..] == [];
    assert Serialize(tree) == SerializeNode(t, 0, true) + SerializeTree([], 0, true);
  }

  lemma EscapedLinesSingle(lines: seq<string>, el: seq<string>)
    requires el == EscapedLines(lines)
    requires forall j :: 0 <= j < |lines| ==> SingleLine(lines[j]) && lines[j] != []
    ensures forall j :: 0 <= j < |el| ==> SingleLine(el[j])
  {
    forall j | 0 <= j < |el| ensures SingleLine(el[j]) {
      EscapedLineChars(lines[j]);
    }
  }

  /** The quoted lines of the serializer, with `key: "` in front of the first, are the outer lines. */
  lemma RootLinesAreOuter(key: string, el: seq<string>, q: seq<string>)
    requires |el| >= 1 && q == QuoteRootLines(el + [""], 0)
    ensures [Indent(0) + key + ": \"" + q[0]] + q[1..] == OuterLines(key, el)
  {
    var r := [Indent(0) + key + ": \"" + q[0]] + q[1..];
    var o := OuterLines(key, el);
    assert Indent(0) + "\"" == "\"";
    FirstLineForm(key, el[0]);
    forall j | 1 <= j < |r| ensures r[j] == o[j] {
      var x := (el + [""])[j];
      assert r[j] == q[j] == Indent(0) + "\"" + x + "\"";
      if j < |el| {
        assert x == el[j];
      } else {
        assert x == "";
      }
    }
  }

  /** The first line as the serializer builds it is `key`, a colon, a space and the quoted escaped line. */
  lemma FirstLineForm(key: string, e: string)
    ensures Indent(0) + key + ": \"" + (e + "\"") == key + ":" + [' '] + Quoted(e)
  {
    assert Indent(0) == "";
    var l := key + ": \"" + (e + "\"");
    var r := key + ":" + [' '] + Quoted(e);
    assert |l| == |r|;
    forall j | 0 <= j < |l| ensures l[j] == r[j] {
      if j < |key| {
      } else if j < |key| + 3 {
      } else {
      }
    }
  }

  lemma JoinLinesPrefix(prefix: string, q: seq<string>)
    requires |q| >= 1
    ensures prefix + JoinLines(q) == JoinLines([prefix + q[0]] + q[1..])
  {
    var r := [prefix + q[0]] + q[1..];
    if |q| > 1 {
      var rest := JoinLines(q[1..]);
      assert r[0] == prefix + q[0] && r[1..] == q[1..];
      assert JoinLines(r) == prefix + q[0] + "\n" + rest;
      assert JoinLines(q) == q[0] + "\n" + rest;
      ConcatAssoc(prefix, q[0] + "\n", rest);
      ConcatAssoc(prefix, q[0], "\n");
    } else {
      assert r == [prefix + q[0]];
    }
  }

  lemma {:induction false} UnlinesOfJoin(q: seq<string>)
    requires |q| >= 1
    ensures JoinLines(q) + "\n" == Unlines(q)
  {
    if |q| > 1 {
      UnlinesOfJoin(q[1..]);
    } else {
      UnlinesSingle(q[0]);
      assert q == [q[0]];
    }
  }

  /** A single line in quotes is a single line. */
  lemma QuotedSingle(s: string)
    requires SingleLine(s)
    ensures SingleLine(Quoted(s))
  {
    var v := Quoted(s);
    forall j | 0 <= j < |v| ensures v[j] != '\n' && v[j] != '\r' {
      if 0 < j < |v| - 1 {
        assert v[j] == s[j - 1];
      }
    }
  }

  /** No outer line holds a line break. */
  lemma OuterLinesSingle(key: string, el: seq<string>)
    requires |el| >= 1 && AllKeyChars(key)
    requires forall j :: 0 <= j < |el| ==> SingleLine(el[j])
    ensures forall j :: 0 <= j < |OuterLines(key, el)| ==> SingleLine(OuterLines(key, el)[j])
  {
    var o := OuterLines(key, el);
    forall j | 0 <= j < |o| ensures SingleLine(o[j]) {
      if j == 0 {
        QuotedSingle(el[0]);
        var v := Quoted(el[0]);
        forall k | 0 <= k < |o[0]| ensures o[0][k] != '\n' && o[0][k] != '\r' {
          if k < |key| {
            assert o[0][k] == key[k];
          } else if k >= |key| + 2 {
            assert o[0][k] == v[k - |key| - 2];
          }
        }
      } else if j < |el| {
        QuotedSingle(el[j]);
      } else {
        assert o[j] == "\"\"";
      }
    }
  }

  /**
   * Reading the outer lines and the empty line after them: the embedded
   * tree, read back from its sub-document.
   */
  lemma ReadOuter(split: seq<string>, t: Node, lines: seq<string>, el: seq<string>)
    requires t == Node(t.key, "tree", Null, t.nodes) && AllKeyChars(t.key)
    requires PlainForest(t.nodes) && lines == ForestLines(t.nodes, 0) && |lines| >= 1
    requires forall j :: 0 <= j < |lines| ==> SingleLine(lines[j]) && lines[j] != []
    requires el == EscapedLines(lines) && split == OuterLines(t.key, el) + [""]
    requires UnescapeSubTree(Unlines(el)) == Unlines(lines)
    requires '\\' !in lines[0] && AllValueChars(lines[0])
    requires IsValue(RemoveChar(lines[0], '"')) || IsObjectStart(RemoveChar(lines[0], '"'))
    ensures ParseLines(split, 0) == Ok([t])
  {
    var m := |el|;
    OuterNodeParses(split, t, lines, el);
    ParseLinesLastEmpty(split);
    var none: seq<Node> := [];
    ParseLinesCons(split, 0, [t], m + 1, none, [t]);
  }

  /** The first outer line starts the embedded tree, which is read from all outer lines. */
  lemma OuterNodeParses(split: seq<string>, t: Node, lines: seq<string>, el: seq<string>)
    requires t == Node(t.key, "tree", Null, t.nodes) && AllKeyChars(t.key)
    requires PlainForest(t.nodes) && lines == ForestLines(t.nodes, 0) && |lines| >= 1
    requires forall j :: 0 <= j < |lines| ==> SingleLine(lines[j]) && lines[j] != []
    requires el == EscapedLines(lines) && split == OuterLines(t.key, el) + [""]
    requires UnescapeSubTree(Unlines(el)) == Unlines(lines)
    requires '\\' !in lines[0] && AllValueChars(lines[0])
    requires IsValue(RemoveChar(lines[0], '"')) || IsObjectStart(RemoveChar(lines[0], '"'))
    ensures ParseNode(split, 0) == Ok(Parsed([t], |el| + 1))
  {
    var m := |el|;
    var cap := ValueCapture(t.key, Quoted(el[0]));
    FirstOuterLine(t.key, lines[0], el[0], split[0]);
    CollectOuter(split, t.key, lines, el);
    SubTreeText(split, lines, el);
    SubDocumentReads(t.nodes, lines);
    assert ParseValueLine(split, 0, cap) == Ok(Parsed([t], m + 1));
  }

  /** What the reader takes from the outer lines is the sub-document without its final line break. */
  lemma SubTreeText(split: seq<string>, lines: seq<string>, el: seq<string>)
    requires |lines| >= 1 && |split| >= 1
    requires CollectSubTree(split, 0) == SubTreeRaw(|el| + 1, Unlines(el))
    requires UnescapeSubTree(Unlines(el)) == Unlines(lines)
    ensures GetSubTreeRaw(0, split) == SubTreeRaw(|el| + 1, JoinLines(lines))
  {
    UnlinesOfJoin(lines);
    var c := Unlines(lines);
    var x := JoinLines(lines);
    assert c == x + "\n";
    assert c[|c| - 1..] == "\n" && c[..|c| - 1] == x;
  }

  /** The first outer line is a value line whose value is a sub-tree value. */
  lemma FirstOuterLine(key: string, a: string, e: string, line: string)
    requires AllKeyChars(key) && SingleLine(a) && '\\' !in a && AllValueChars(a)
    requires IsValue(RemoveChar(a, '"')) || IsObjectStart(RemoveChar(a, '"'))
    requires a != [] && e == QuotesEscaped(a) + BreakMarker(a) && line == key + ":" + [' '] + Quoted(e)
    ensures line != "" && MatchValue(line) == Some(ValueCapture(key, Quoted(e)))
    ensures IsSubTreeValue(Quoted(e))
  {
    EscapedLineChars(a);
    QuotedValueChars(e);
    ValueLineOf(key, Quoted(e));
    EscapedLineIsSubTreeValue(a);
  }

  /** Value characters in quotes are value characters. */
  lemma QuotedValueChars(e: string)
    requires AllValueChars(e)
    ensures AllValueChars(Quoted(e))
  {
    var v := Quoted(e);
    forall j | 0 <= j < |v| ensures IsValueChar(v[j]) {
      if 0 < j < |v| - 1 {
        assert v[j] == e[j - 1];
      }
    }
  }

  /** A key, a colon, a space and value characters make a value line capturing that key and value. */
  lemma ValueLineOf(key: string, v: string)
    requires AllKeyChars(key) && AllValueChars(v)
    ensures var line := key + ":" + [' '] + v; line != "" && MatchValue(line) == Some(ValueCapture(key, v))
  {
    var line := key + ":" + [' '] + v;
    assert line == "" + key + ":" + [' '] + v;
    MatchValueComplete(line, "", key, ' ', v);
  }

  /**
   * An escaped line in quotes is a sub-tree value when the line, with its
   * quotes deleted, is a value line or an object start.
   */
  lemma EscapedLineIsSubTreeValue(a: string)
    requires '\\' !in a && (IsValue(RemoveChar(a, '"')) || IsObjectStart(RemoveChar(a, '"')))
    ensures IsSubTreeValue(Quoted(QuotesEscaped(a) + BreakMarker(a)))
  {
    var e := QuotesEscaped(a) + BreakMarker(a);
    WrittenBreakRemoved(a);
    EscapedQuotesRemoved(a);
    QuotedIsSubTreeValue(e);
  }

  /** Deleting escaped `n`s from an escaped line drops the break marker at its end. */
  lemma WrittenBreakRemoved(a: string)
    requires '\\' !in a
    ensures RemoveEscapeRuns(QuotesEscaped(a) + BreakMarker(a), 'n') == QuotesEscaped(a)
  {
    QuotesEscapedKept(a, BreakMarker(a));
    if BreakMarker(a) == "" {
      assert QuotesEscaped(a) + "" == QuotesEscaped(a);
    } else {
      RemoveEscapeRunsDrop(['\\'], [], 'n');
      assert ['\\'] + ['n'] + [] == BreakMarker(a);
    }
  }

  /** Deleting escaped `n`s keeps a quote-escaped line without backslashes and processes what follows it. */
  lemma {:induction false} QuotesEscapedKept(a: string, tail: string)
    requires '\\' !in a
    ensures RemoveEscapeRuns(QuotesEscaped(a) + tail, 'n') == QuotesEscaped(a) + RemoveEscapeRuns(tail, 'n')
  {
    if a == [] {
      assert QuotesEscaped(a) + tail == tail;
    } else {
      Uncons(a);
      QuotesEscapedKept(a[1..], tail);
      var q := QuotesEscaped(a[1..]);
      ConcatAssoc(QuoteChunk(a[0]), q, tail);
      ChunkKept(a[0], q + tail);
      ConcatAssoc(QuoteChunk(a[0]), q, RemoveEscapeRuns(tail, 'n'));
    }
  }

  /** The chunk of a character other than a backslash is kept when escaped `n`s are deleted. */
  lemma ChunkKept(c: char, tail: string)
    requires c != '\\'
    ensures RemoveEscapeRuns(QuoteChunk(c) + tail, 'n') == QuoteChunk(c) + RemoveEscapeRuns(tail, 'n')
  {
    if c == '"' {
      assert QuoteChunk(c) == ['\\'] + ['"'];
      RemoveEscapeRunsQuote(tail);
      ConcatAssoc(['\\'], ['"'], tail);
      ConcatAssoc(['\\'], ['"'], RemoveEscapeRuns(tail, 'n'));
    } else {
      RemoveEscapeRunsCons(c, tail, 'n');
    }
  }

  /** Deleting escaped quotes from text whose quotes were escaped deletes its quotes. */
  lemma {:induction false} EscapedQuotesRemoved(a: string)
    requires '\\' !in a
    ensures RemoveEscapeRuns(QuotesEscaped(a), '"') == RemoveChar(a, '"')
  {
    if a != [] {
      Uncons(a);
      EscapedQuotesRemoved(a[1..]);
      var tail := QuotesEscaped(a[1..]);
      if a[0] == '"' {
        assert QuoteChunk(a[0]) == ['\\'] + ['"'];
        RemoveEscapeRunsDrop(['\\'], tail, '"');
      } else {
        assert QuoteChunk(a[0]) == [a[0]];
        RemoveEscapeRunsCons(a[0], tail, '"');
      }
    }
  }

  /**
   * Collecting from the first outer line: the quoted part of every line up
   * to the `""` line, which is the text of the escaped lines.
   */
  lemma CollectOuter(split: seq<string>, key: string, lines: seq<string>, el: seq<string>)
    requires |lines| >= 1 && el == EscapedLines(lines) && AllKeyChars(key)
    requires forall j :: 0 <= j < |lines| ==> SingleLine(lines[j]) && lines[j] != []
    requires split == OuterLines(key, el) + [""]
    ensures CollectSubTree(split, 0) == SubTreeRaw(|el| + 1, Unlines(el))
  {
    var m := |el|;
    forall j | 0 <= j < m ensures !IsSubTreeEnd(split[j]) && QuotedPart(split[j]) == el[j] {
      if j == 0 {
        FirstQuotedPart(key, el[0]);
      } else {
        EscapedLineChars(lines[j]);
        LaterQuotedPart(el[j]);
      }
    }
    assert split[m] == "\"\"";
    IndentedQuotesEndSubTree(0);
    assert Indent(0) + "\"\"" == "\"\"";
    CollectQuotedLines(split, 0, m, el);
    assert el[0..] == el;
  }

  /** The first outer line is no `""` line, and its quoted part is the escaped line. */
  lemma FirstQuotedPart(key: string, e: string)
    requires AllKeyChars(key)
    ensures var line := key + ":" + [' '] + Quoted(e); !IsSubTreeEnd(line) && QuotedPart(line) == e
  {
    var prefix := key + ":" + [' '];
    var line := prefix + Quoted(e);
    forall j | 0 <= j < |prefix| ensures prefix[j] != '"' {
      if j < |key| {
        assert prefix[j] == key[j];
      }
    }
    QuotedPartOf(prefix, e);
    assert line[|key|] == ':';
    NotSubTreeEndAt(line, |key|);
  }

  /** A later outer line is no `""` line, and its quoted part is the escaped line. */
  lemma LaterQuotedPart(e: string)
    requires |e| >= 1 && e[|e| - 1] == 'n'
    ensures !IsSubTreeEnd(Quoted(e)) && QuotedPart(Quoted(e)) == e
  {
    var line := Quoted(e);
    assert line[0] == '"' && line[|line| - 1] == '"';
    FirstQuoteAt(line, 0);
    assert LastQuoteIndex(line) == |line| - 1;
    assert line[1..|line| - 1] == e;
    assert line[|e|] == 'n';
    NotSubTreeEndAt(line, |e|);
  }

  /** The lines from `i` up to a `""` line `m`, each holding `el[j]` in quotes, collect to the text of `el[i..]`. */
  lemma {:induction false} CollectQuotedLines(split: seq<string>, i: nat, m: nat, el: seq<string>)
    requires i <= m < |split| && |el| == m
    requires forall j :: i <= j < m ==> !IsSubTreeEnd(split[j]) && QuotedPart(split[j]) == el[j]
    requires IsSubTreeEnd(split[m])
    ensures CollectSubTree(split, i) == SubTreeRaw(m - i + 1, Unlines(el[i..]))
    decreases m - i
  {
    if i == m {
      assert el[i..] == [];
    } else {
      CollectQuotedLines(split, i + 1, m, el);
      assert el[i..][0] == el[i] && el[i..][1..] == el[i + 1..];
    }
  }

  /** The quoted part of a line that is a quote-free prefix, then text in quotes, is that text. */
  lemma QuotedPartOf(prefix: string, inner: string)
    requires '"' !in prefix
    ensures QuotedPart(prefix + Quoted(inner)) == inner
  {
    var line := prefix + Quoted(inner);
    var p := |prefix|;
    assert line[..p] == prefix;
    assert line[p] == '"' && line[|line| - 1] == '"';
    FirstQuoteAt(line, p);
    assert LastQuoteIndex(line) == |line| - 1;
    assert line[p + 1..|line| - 1] == inner;
  }

  /** A line holding a character that is neither whitespace nor a quote is no `""` line. */
  lemma NotSubTreeEndAt(line: string, k: nat)
    requires k < |line| && !IsWhitespace(line[k]) && line[k] != '"'
    ensures !IsSubTreeEnd(line)
  {
    if IsSubTreeEnd(line) {
      SubTreeEndChars(line);
      assert false;
    }
  }

  /** The sub-document, once its final line break is dropped, reads back as exactly the plain children. */
  lemma SubDocumentReads(ns: seq<Node>, lines: seq<string>)
    requires PlainForest(ns) && lines == ForestLines(ns, 0) && |lines| >= 1
    requires forall j :: 0 <= j < |lines| ==> SingleLine(lines[j]) && lines[j] != []
    ensures ParseLines(SplitLines(JoinLines(lines)), 0) == Ok(ns)
  {
    SplitJoinLines(lines);
    IsAtRest(lines, 0);
    assert lines[0..] == lines;
    ForestReadInTurn(lines, 0, ns, 0);
    StartsEnd(ns, 0, 0);
    LinesReadToEnd(lines, Starts(ns, 0, 0), ns);
  }
}
