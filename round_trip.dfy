/**
 * Writing a tree and reading it back.
 *
 * The format does not read back everything it writes: string inference
 * drops every double quote, a line break after `n` inside an embedded
 * sub-tree is not escaped, and a quoted value that looks like a line is
 * read as a sub-tree. This module proves the round trip on the fragment
 * where none of that happens, the plain trees: objects and scalar nodes of
 * type int, bool, string and custom, every key made of key characters,
 * every int a safe integer (one JavaScript prints in full and reads back
 * exactly), every string and custom text made of key characters, and
 * custom text that does not start with a digit and is neither a boolean
 * nor `Infinity`.
 *
 * The proof goes through the lines the serializer writes (`NodeLines`,
 * `ForestLines`): the serialized text is exactly those lines, each followed
 * by a line break, and the deserializer reads each node back from its
 * lines, consuming exactly them.
 */
module RoundTrip {
  import opened Wrappers
  import opened Strings
  import opened Numbers
  import opened TreeModel
  import opened Patterns
  import opened Escaping
  import opened TypeInference
  import opened Serializer
  import opened Deserializer

  /** A scalar node whose line reads back as itself. */
  predicate PlainScalar(n: Node) {
    && n.nodes == []
    && (|| (n.kind == "int" && n.value.Int? && IsSafeInteger(n.value.i))
        || (n.kind == "bool" && n.value.Bool?)
        || (n.kind == "string" && n.value.Text? && AllKeyChars(n.value.text))
        || (n.kind == "custom" && n.value.Text? && IsPlainCustom(n.value.text)))
  }

  /**
   * Custom text the reader types back as custom: key characters, not
   * starting with a digit (so not numeric), not a boolean, and not
   * `Infinity`, which JavaScript reads as a number.
   */
  predicate IsPlainCustom(t: string) {
    |t| > 0 && AllKeyChars(t) && !IsDigit(t[0]) && t != "true" && t != "false" && t != "Infinity"
  }

  /** A node of the plain fragment: a plain scalar, or an object whose children are all plain. */
  predicate PlainNode(n: Node)
    decreases n
  {
    && AllKeyChars(n.key)
    && (|| PlainScalar(n)
        || (n.kind == "object" && n.value == Null && forall i :: 0 <= i < |n.nodes| ==> PlainNode(n.nodes[i])))
  }

  predicate PlainForest(ns: seq<Node>) {
    forall i :: 0 <= i < |ns| ==> PlainNode(ns[i])
  }

  /**
   * The lines the serializer writes for a plain node, without their line
   * breaks. Only plain nodes are written this way; any other node is laid
   * out here as an object, which nothing relies on.
   */
  function NodeLines(n: Node, level: nat): (r: seq<string>)
    ensures |r| >= 1
    decreases n, 1
  {
    if PlainScalar(n) then [ScalarLine(n, level)]
    else [OpenLine(n.key, level)] + ForestLines(n.nodes, level + 1) + [CloseLine(level)]
  }

  /** The value line of a plain scalar, written from its value alone. */
  function ScalarLine(n: Node, level: nat): string {
    Indent(level) + n.key + ":" + " " + ScalarText(n)
  }

  /** The text of a plain scalar: its digits, `true` or `false`, its quoted string, or its custom text. */
  function ScalarText(n: Node): string {
    match n.value
    case Int(i) => IntToString(i)
    case Bool(b) => if b then "true" else "false"
    case Text(t) => if n.kind == "string" then "\"" + t + "\"" else t
    case _ => ""
  }

  /** For a plain scalar, `ScalarLine` is the line the serializer writes. */
  lemma ScalarLineIsValueLine(n: Node, level: nat)
    requires PlainScalar(n)
    ensures ScalarLine(n, level) == ValueLine(n, level)
  {
    assert ScalarText(n) == ValueRendering(n);
  }

  /** The lines of plain nodes, one node after the other. */
  function ForestLines(ns: seq<Node>, level: nat): (r: seq<string>)
    decreases ns, 0
  {
    if ns == [] then [] else NodeLines(ns[0], level) + ForestLines(ns[1..], level)
  }

  /** No line the serializer writes for a plain node holds a line break. */
  lemma {:induction false} NodeLinesSingle(n: Node, level: nat)
    requires PlainNode(n)
    ensures forall j :: 0 <= j < |NodeLines(n, level)| ==> SingleLine(NodeLines(n, level)[j]) && NodeLines(n, level)[j] != []
    decreases n, 1
  {
    if PlainScalar(n) {
      PlainScalarLine(n, level);
    } else {
      OpenLineFacts(n.key, level);
      CloseLineFacts(level);
      assert |OpenLine(n.key, level)| >= 2 && |CloseLine(level)| >= 1;
      ForestLinesSingle(n.nodes, level + 1);
    }
  }

  lemma {:induction false} ForestLinesSingle(ns: seq<Node>, level: nat)
    requires PlainForest(ns)
    ensures forall j :: 0 <= j < |ForestLines(ns, level)| ==> SingleLine(ForestLines(ns, level)[j]) && ForestLines(ns, level)[j] != []
    decreases ns, 0
  {
    if ns != [] {
      NodeLinesSingle(ns[0], level);
      ForestLinesSingle(ns[1..], level);
    }
  }

  /** The line `i` places after `k`. */
  function At<T>(lines: seq<T>, k: nat, i: nat): T
    requires k + i < |lines|
  {
    lines[k + i]
  }

  /** `block` stands in `lines` from index `k` on, line by line. */
  predicate IsAt<T(==)>(lines: seq<T>, k: nat, block: seq<T>) {
    k + |block| <= |lines| && forall i {:trigger At(lines, k, i)} :: 0 <= i < |block| ==> At(lines, k, i) == block[i]
  }

  /** A block `a + b` standing at `k`: `a` stands at `k`, `b` right after it. */
  lemma IsAtSplit<T>(lines: seq<T>, k: nat, ab: seq<T>, a: seq<T>, b: seq<T>)
    requires IsAt(lines, k, ab) && ab == a + b
    ensures IsAt(lines, k, a) && IsAt(lines, k + |a|, b)
  {
    forall i | 0 <= i < |a| ensures At(lines, k, i) == a[i] {
      assert At(lines, k, i) == ab[i];
    }
    forall i | 0 <= i < |b| ensures At(lines, k + |a|, i) == b[i] {
      assert At(lines, k, |a| + i) == ab[|a| + i];
    }
  }

  /** The rest of `lines` stands at `k`. */
  lemma IsAtRest<T>(lines: seq<T>, k: nat)
    requires k <= |lines|
    ensures IsAt(lines, k, lines[k..])
  {
    forall i | 0 <= i < |lines| - k ensures At(lines, k, i) == lines[k..][i] {
    }
  }


  /** The serializer writes a plain node as its lines, each followed by a line break. */
  lemma {:induction false} SerializeNodeLines(n: Node, level: nat, isRoot: bool)
    requires PlainNode(n)
    ensures SerializeNode(n, level, isRoot) == Unlines(NodeLines(n, level))
    decreases n, 1
  {
    if PlainScalar(n) {
      ScalarLineIsValueLine(n, level);
      UnlinesSingle(ValueLine(n, level));
    } else {
      SerializeForestLines(n.nodes, level + 1, isRoot);
      UnlinesWrap(OpenLine(n.key, level), ForestLines(n.nodes, level + 1), CloseLine(level));
    }
  }

  /** The serializer writes plain children as their lines, each followed by a line break. */
  lemma {:induction false} SerializeForestLines(ns: seq<Node>, level: nat, isRoot: bool)
    requires PlainForest(ns)
    ensures SerializeTree(ns, level, isRoot) == Unlines(ForestLines(ns, level))
    decreases ns, 0
  {
    if ns != [] {
      SerializeNodeLines(ns[0], level, isRoot);
      SerializeForestLines(ns[1..], level, isRoot);
      UnlinesAppend(NodeLines(ns[0], level), ForestLines(ns[1..], level));
    }
  }

  /** A line made of value characters. */
  lemma ValueCharsLine(ws: string, key: string, value: string)
    requires forall j :: 0 <= j < |ws| ==> ws[j] == ' '
    requires AllKeyChars(key) && AllValueChars(value)
    ensures AllValueChars(ws + key + ":" + " " + value)
  {
    var line := ws + key + ":" + " " + value;
    forall j | 0 <= j < |line| ensures IsValueChar(line[j]) {
      if j < |ws| {
        assert line[j] == ws[j];
      } else if j < |ws| + |key| {
        assert line[j] == key[j - |ws|];
      } else if j >= |ws| + |key| + 2 {
        assert line[j] == value[j - |ws| - |key| - 2];
      }
    }
  }

  lemma ValueCharsAreSingleLine(s: string)
    requires AllValueChars(s)
    ensures SingleLine(s)
  {
  }

  /** What the rendering of a plain scalar is made of, and that it reads back as the node. */
  lemma PlainRendering(n: Node)
    requires PlainScalar(n)
    ensures var r := ValueRendering(n);
      |r| > 0 && AllValueChars(r) && !IsSubTreeValue(r) && ValueNode(n.key, r) == n
  {
    ValueStringFacts(n.value);
    if n.kind == "int" {
      IntRendering(n.value.i);
    } else if n.kind == "bool" {
      BoolRendering(n.value.b);
    } else if n.kind == "string" {
      StringRendering(n.value.text);
    } else {
      CustomRendering(n.value.text);
    }
  }

  lemma IntRendering(i: int)
    ensures var r := IntToString(i);
      |r| > 0 && AllValueChars(r) && !IsSubTreeValue(r) && InferType(r) == Typed("int", Int(i))
  {
    var r := IntToString(i);
    var digits := NatToString(if i < 0 then -i else i);
    if i < 0 {
      assert r == "-" + digits;
      assert r[0] == '-';
    } else {
      assert r[0] == digits[0];
    }
    UnquotedIsNoSubTree(r);
    InferIntText(i);
  }

  lemma BoolRendering(b: bool)
    ensures var r := if b then "true" else "false";
      |r| > 0 && AllValueChars(r) && !IsSubTreeValue(r) && InferType(r) == Typed("bool", Bool(b))
  {
    var r := if b then "true" else "false";
    assert r[0] == (if b then 't' else 'f');
    assert AllValueChars(r) by {
      forall j | 0 <= j < |r| ensures IsKeyChar(r[j]) {
      }
    }
    UnquotedIsNoSubTree(r);
    InferBoolText(b);
  }

  lemma StringRendering(t: string)
    requires AllKeyChars(t)
    ensures var r := "\"" + t + "\"";
      |r| > 0 && AllValueChars(r) && !IsSubTreeValue(r) && InferType(r) == Typed("string", Text(t))
  {
    var r := "\"" + t + "\"";
    assert AllValueChars(r) by {
      forall j | 0 <= j < |r| ensures IsValueChar(r[j]) {
        if 0 < j < |r| - 1 { assert r[j] == t[j - 1]; }
      }
    }
    InferQuotedText(t);
    QuotedKeyCharsIsNoSubTree(t);
  }

  lemma CustomRendering(t: string)
    requires IsPlainCustom(t)
    ensures |t| > 0 && AllValueChars(t) && !IsSubTreeValue(t) && InferType(t) == Typed("custom", Text(t))
  {
    NotNumericText(t);
    UnquotedIsNoSubTree(t);
  }

  /** A value that does not start with a double quote is not a sub-tree value. */
  lemma UnquotedIsNoSubTree(v: string)
    requires |v| > 0 && v[0] != '"'
    ensures !IsSubTreeValue(v)
  {
    assert v[..1][0] == v[0];
  }

  /** Key characters in double quotes are not a sub-tree value: what is inside has neither `:` nor `{`. */
  lemma QuotedKeyCharsIsNoSubTree(t: string)
    requires AllKeyChars(t)
    ensures !IsSubTreeValue("\"" + t + "\"")
  {
    var v := "\"" + t + "\"";
    assert Substring(v, 1, |v| - 1) == t;
    assert '\\' !in t;
    assert ':' !in t && '{' !in t;
    NoColonIsNoValue(t);
    NoBraceIsNoObjectStart(t);
  }

  /** A line without `:` is not a value line. */
  lemma NoColonIsNoValue(line: string)
    requires ':' !in line
    ensures !IsValue(line)
  {
  }

  /** A line without `{` is not an object start. */
  lemma NoBraceIsNoObjectStart(line: string)
    requires '{' !in line
    ensures !IsObjectStart(line)
  {
  }

  /** The line of a plain scalar is a value line capturing its key and rendering, and reads back as the node. */
  lemma PlainScalarLine(n: Node, level: nat)
    requires AllKeyChars(n.key) && PlainScalar(n)
    ensures var line := ValueLine(n, level);
      && SingleLine(line) && line != "" && !IsObjectEnd(line)
      && MatchValue(line) == Some(ValueCapture(n.key, ValueRendering(n)))
  {
    var line := ValueLine(n, level);
    var r := ValueRendering(n);
    PlainRendering(n);
    ValueCharsLine(Indent(level), n.key, r);
    ValueCharsAreSingleLine(line);
    assert line == Indent(level) + n.key + ":" + [' '] + r;
    MatchValueComplete(line, Indent(level), n.key, ' ', r);
    ValueLineIsNotObjectEnd(line);
  }

  /** The opening line of an object is an object start capturing its key, and no value line. */
  lemma OpenLineFacts(key: string, level: nat)
    requires AllKeyChars(key)
    ensures var line := OpenLine(key, level);
      && SingleLine(line) && line != "" && !IsObjectEnd(line)
      && !IsValue(line) && MatchObject(line) == Some(key)
  {
    var line := OpenLine(key, level);
    OpenLineChars(key, level);
    assert line == Indent(level) + key + [' '] + "{";
    MatchObjectComplete(line, Indent(level), key, ' ');
    NoColonIsNoValue(line);
  }

  /** The opening line holds no colon and no line break. */
  lemma OpenLineChars(key: string, level: nat)
    requires AllKeyChars(key)
    ensures ':' !in OpenLine(key, level) && SingleLine(OpenLine(key, level))
  {
    var line := OpenLine(key, level);
    forall j | 0 <= j < |line| ensures line[j] != ':' && line[j] != '\n' && line[j] != '\r' {
      if j < 2 * level {
        assert line[j] == Indent(level)[j];
      } else if j < 2 * level + |key| {
        assert line[j] == key[j - 2 * level];
      }
    }
  }

  lemma CloseLineFacts(level: nat)
    ensures var line := CloseLine(level); SingleLine(line) && IsObjectEnd(line)
  {
  }

  /**
   * Reading a plain node from its lines: exactly that node, consuming
   * exactly its lines.
   */
  lemma {:induction false} NodeParses(lines: seq<string>, k: nat, n: Node, level: nat)
    requires PlainNode(n) && IsAt(lines, k, NodeLines(n, level))
    ensures k < |lines|
    ensures ParseNode(lines, k) == Ok(Parsed([n], |NodeLines(n, level)|))
    decreases n, 2
  {
    if PlainScalar(n) {
      ScalarParses(lines, k, n, level);
    } else {
      ObjectNodeParses(lines, k, n, level);
    }
  }

  /** The object case of `NodeParses`. */
  lemma {:induction false} ObjectNodeParses(lines: seq<string>, k: nat, n: Node, level: nat)
    requires PlainNode(n) && !PlainScalar(n) && IsAt(lines, k, NodeLines(n, level))
    ensures k < |lines|
    ensures ParseNode(lines, k) == Ok(Parsed([n], |NodeLines(n, level)|))
    decreases n, 1
  {
    ObjectLayout(lines, k, n, level);
    ChildrenParse(lines, k + 1, n, n.nodes, level + 1);
    ObjectNodeFromBody(lines, k, n, level);
  }

  /** The children of an object node, laid out as a body, are read back as that body. */
  lemma {:induction false} ChildrenParse(lines: seq<string>, k: nat, n: Node, ns: seq<Node>, level: nat)
    requires ns == n.nodes && BodyAt(lines, k, ns, level)
    ensures ParseBody(lines, k) == Ok(Parsed(ns, |ForestLines(ns, level)|))
    decreases n, 0
  {
    ForestParsesBody(lines, k, ns, level);
  }

  /** The plain forest `ns` lies in `lines` from `k` on, followed by a line that closes an object. */
  predicate BodyAt(lines: seq<string>, k: nat, ns: seq<Node>, level: nat) {
    && PlainForest(ns) && IsAt(lines, k, ForestLines(ns, level))
    && k + |ForestLines(ns, level)| < |lines| && IsObjectEnd(lines[k + |ForestLines(ns, level)|])
  }

  /** The children of a plain object node standing at `k` lie from `k + 1` on, followed by a closing line. */
  lemma {:induction false} ObjectLayout(lines: seq<string>, k: nat, n: Node, level: nat)
    requires PlainNode(n) && !PlainScalar(n) && IsAt(lines, k, NodeLines(n, level))
    ensures BodyAt(lines, k + 1, n.nodes, level + 1)
  {
    PlainObjectParts(n);
    ObjectLinesAt(lines, k, n, level);
    CloseLineAt(lines, k + 1 + |ForestLines(n.nodes, level + 1)|, level);
  }

  /** A plain object node standing at `k` whose children parse as a body is read back whole. */
  lemma {:induction false} ObjectNodeFromBody(lines: seq<string>, k: nat, n: Node, level: nat)
    requires PlainNode(n) && !PlainScalar(n) && IsAt(lines, k, NodeLines(n, level))
    requires ParseBody(lines, k + 1) == Ok(Parsed(n.nodes, |ForestLines(n.nodes, level + 1)|))
    ensures k < |lines|
    ensures ParseNode(lines, k) == Ok(Parsed([n], |NodeLines(n, level)|))
  {
    PlainObjectParts(n);
    ObjectLinesAt(lines, k, n, level);
    var inner := ForestLines(n.nodes, level + 1);
    ObjectParses(lines, k, n.key, level, n.nodes, |inner|, n, |NodeLines(n, level)|);
  }

  /** The lines of an object standing at `k`: its opening line, its children's lines, its closing line. */
  lemma {:induction false} ObjectLinesAt(lines: seq<string>, k: nat, n: Node, level: nat)
    requires !PlainScalar(n) && IsAt(lines, k, NodeLines(n, level))
    ensures IsAt(lines, k, [OpenLine(n.key, level)]) && k + 1 <= |lines|
    ensures IsAt(lines, k + 1, ForestLines(n.nodes, level + 1))
    ensures IsAt(lines, k + 1 + |ForestLines(n.nodes, level + 1)|, [CloseLine(level)])
    ensures |NodeLines(n, level)| == |ForestLines(n.nodes, level + 1)| + 2
  {
    var open := OpenLine(n.key, level);
    var inner := ForestLines(n.nodes, level + 1);
    var close := CloseLine(level);
    ObjectLines(n, level);
    IsAtSplit(lines, k, NodeLines(n, level), [open] + inner, [close]);
    IsAtSplit(lines, k, [open] + inner, [open], inner);
  }

  /** The lines of a node that is not a plain scalar: its opening line, its children's lines, its closing line. */
  lemma ObjectLines(n: Node, level: nat)
    requires !PlainScalar(n)
    ensures NodeLines(n, level) == [OpenLine(n.key, level)] + ForestLines(n.nodes, level + 1) + [CloseLine(level)]
  {
  }

  /** The lines of a plain scalar: its one value line. */
  lemma ScalarLines(n: Node, level: nat)
    requires PlainScalar(n)
    ensures NodeLines(n, level) == [ScalarLine(n, level)]
  {
  }

  /** A plain node that is not a scalar is an object with no value and plain children. */
  lemma PlainObjectParts(n: Node)
    requires PlainNode(n) && !PlainScalar(n)
    ensures n == Node(n.key, "object", Null, n.nodes)
    ensures AllKeyChars(n.key) && PlainForest(n.nodes)
  {
  }

  lemma IsAtFirst<T>(lines: seq<T>, k: nat, block: seq<T>)
    requires IsAt(lines, k, block) && |block| > 0
    ensures k < |lines| && lines[k] == block[0]
  {
    assert At(lines, k, 0) == block[0];
  }

  /** The line of a plain scalar reads back as that scalar, consuming one line. */
  lemma {:induction false} ScalarParses(lines: seq<string>, k: nat, n: Node, level: nat)
    requires PlainNode(n) && PlainScalar(n) && IsAt(lines, k, NodeLines(n, level))
    ensures k < |lines|
    ensures ParseNode(lines, k) == Ok(Parsed([n], |NodeLines(n, level)|))
  {
    ScalarLines(n, level);
    IsAtFirst(lines, k, [ScalarLine(n, level)]);
    ScalarLineIsValueLine(n, level);
    PlainScalarLine(n, level);
    PlainRendering(n);
    ParseNodeValue(lines, k, ValueCapture(n.key, ValueRendering(n)));
  }

  /** An opening line followed by children read up to a closing line reads as one object. */
  lemma {:induction false} ObjectParses(lines: seq<string>, k: nat, key: string, level: nat, children: seq<Node>, m: nat, obj: Node, total: nat)
    requires AllKeyChars(key) && IsAt(lines, k, [OpenLine(key, level)]) && k + 1 <= |lines|
    requires ParseBody(lines, k + 1) == Ok(Parsed(children, m))
    requires obj == Node(key, "object", Null, children) && total == m + 2
    ensures ParseNode(lines, k) == Ok(Parsed([obj], total))
  {
    IsAtFirst(lines, k, [OpenLine(key, level)]);
    OpenLineFacts(key, level);
    ParseNodeObject(lines, k, key);
  }

  /** A closing line standing at `j` closes an object. */
  lemma CloseLineAt(lines: seq<string>, j: nat, level: nat)
    requires IsAt(lines, j, [CloseLine(level)])
    ensures j < |lines| && IsObjectEnd(lines[j])
  {
    IsAtFirst(lines, j, [CloseLine(level)]);
    CloseLineFacts(level);
  }

  /** The first line of a plain node standing at `k` does not close an object. */
  lemma {:induction false} FirstLineAt(lines: seq<string>, k: nat, n: Node, level: nat)
    requires PlainNode(n) && IsAt(lines, k, NodeLines(n, level))
    ensures k < |lines| && !IsObjectEnd(lines[k])
  {
    IsAtFirst(lines, k, NodeLines(n, level));
    FirstLineIsNoObjectEnd(n, level);
  }

  /**
   * Reading plain children whose lines stand at `k` and are followed by the
   * closing line `j`: exactly those children, consuming exactly their lines.
   */
  lemma {:induction false} ForestParsesBody(lines: seq<string>, k: nat, ns: seq<Node>, level: nat)
    requires BodyAt(lines, k, ns, level)
    ensures ParseBody(lines, k) == Ok(Parsed(ns, |ForestLines(ns, level)|))
    decreases ns, 2
  {
    ForestReadInTurn(lines, k, ns, level);
    BodyReadInTurn(lines, Starts(ns, level, k), ns, k, |ForestLines(ns, level)|);
  }

  /**
   * The offsets of blocks of widths `ws` laid end to end from `k`, then the
   * offset just past the last block.
   */
  function Offsets(ws: seq<nat>, k: nat): (r: seq<nat>)
    ensures |r| == |ws| + 1 && r[0] == k
    decreases ws
  {
    if ws == [] then [k] else [k] + Offsets(ws[1..], k + ws[0])
  }

  /** The total of the widths `ws`. */
  function Sum(ws: seq<nat>): nat
    decreases ws
  {
    if ws == [] then 0 else ws[0] + Sum(ws[1..])
  }

  /** The offsets of non-empty widths: the start, then the other blocks' from where the first ends. */
  lemma OffsetsCons(ws: seq<nat>, k: nat, rest: seq<nat>, next: nat)
    requires ws != [] && rest == ws[1..] && next == k + ws[0]
    ensures Offsets(ws, k) == [k] + Offsets(rest, next)
  {
  }

  /** After the first block, the offsets are those of the other blocks, laid out from where it ends. */
  lemma OffsetsTail(ws: seq<nat>, k: nat, i: nat, rest: seq<nat>, next: nat)
    requires 0 < i <= |ws| && rest == ws[1..] && next == k + ws[0]
    ensures Offsets(ws, k)[i] == Offsets(rest, next)[i - 1]
  {
    OffsetsCons(ws, k, rest, next);
  }

  /** Block `i + 1` starts where block `i` ends. */
  lemma {:induction false} OffsetsStep(ws: seq<nat>, k: nat, i: nat)
    requires i < |ws|
    ensures Offsets(ws, k)[i + 1] == Offsets(ws, k)[i] + ws[i]
    decreases i
  {
    OffsetsTail(ws, k, i + 1, ws[1..], k + ws[0]);
    if i > 0 {
      OffsetsTail(ws, k, i, ws[1..], k + ws[0]);
      OffsetsStep(ws[1..], k + ws[0], i - 1);
    }
  }

  /** The offset past the last block is the start plus the total width. */
  lemma {:induction false} OffsetsEnd(ws: seq<nat>, k: nat)
    ensures Offsets(ws, k)[|ws|] == k + Sum(ws)
    decreases ws
  {
    if ws != [] {
      OffsetsEnd(ws[1..], k + ws[0]);
      OffsetsTail(ws, k, |ws|, ws[1..], k + ws[0]);
    }
  }

  /** The lines of a sequence of blocks laid end to end. */
  function Flatten<T>(bs: seq<seq<T>>): (r: seq<T>)
    decreases bs
  {
    if bs == [] then [] else bs[0] + Flatten(bs[1..])
  }

  /** The number of lines of each block. */
  function Lengths<T>(bs: seq<seq<T>>): (r: seq<nat>)
    ensures |r| == |bs|
    decreases bs
  {
    if bs == [] then [] else [|bs[0]|] + Lengths(bs[1..])
  }

  lemma LengthsCons<T>(bs: seq<seq<T>>)
    requires bs != []
    ensures Lengths(bs)[0] == |bs[0]|
    ensures Lengths(bs)[1..] == Lengths(bs[1..])
  {
    assert Lengths(bs) == [|bs[0]|] + Lengths(bs[1..]);
  }

  /** Length `i` is the number of lines of block `i`. */
  lemma {:induction false} LengthAt<T>(bs: seq<seq<T>>, i: nat)
    requires i < |bs|
    ensures Lengths(bs)[i] == |bs[i]|
    decreases i
  {
    LengthsCons(bs);
    if i > 0 {
      LengthAt(bs[1..], i - 1);
      assert bs[i] == bs[1..][i - 1];
    }
  }

  /** The lengths of the blocks add up to the number of lines they make together. */
  lemma {:induction false} LengthsSum<T>(bs: seq<seq<T>>)
    ensures Sum(Lengths(bs)) == |Flatten(bs)|
    decreases bs
  {
    if bs != [] {
      LengthsSum(bs[1..]);
      LengthsCons(bs);
    }
  }

  /** Blocks standing together at `k`: block `i` stands at its offset. */
  lemma {:induction false} BlockLaidOut<T>(lines: seq<T>, k: nat, bs: seq<seq<T>>, i: nat)
    requires IsAt(lines, k, Flatten(bs)) && i < |bs|
    ensures IsAt(lines, Offsets(Lengths(bs), k)[i], bs[i])
    decreases i
  {
    IsAtSplit(lines, k, Flatten(bs), bs[0], Flatten(bs[1..]));
    if i > 0 {
      BlockLaidOut(lines, k + |bs[0]|, bs[1..], i - 1);
      LengthsCons(bs);
      OffsetsTail(Lengths(bs), k, i, Lengths(bs[1..]), k + |bs[0]|);
      assert bs[i] == bs[1..][i - 1];
    }
  }

  /** The lines of each node of `ns`, node by node. */
  function Blocks(ns: seq<Node>, level: nat): (r: seq<seq<string>>)
    ensures |r| == |ns|
    decreases ns
  {
    if ns == [] then [] else [NodeLines(ns[0], level)] + Blocks(ns[1..], level)
  }

  /** Block `i` holds the lines of node `i`. */
  lemma {:induction false} BlockOfNode(ns: seq<Node>, level: nat, i: nat)
    requires i < |ns|
    ensures Blocks(ns, level)[i] == NodeLines(ns[i], level)
    decreases i
  {
    assert Blocks(ns, level) == [NodeLines(ns[0], level)] + Blocks(ns[1..], level);
    if i > 0 {
      BlockOfNode(ns[1..], level, i - 1);
      assert ns[i] == ns[1..][i - 1];
    }
  }

  /** The lines of a forest are its nodes' blocks laid end to end. */
  lemma {:induction false} ForestIsFlatten(ns: seq<Node>, level: nat)
    ensures Flatten(Blocks(ns, level)) == ForestLines(ns, level)
    decreases ns
  {
    if ns != [] {
      ForestIsFlatten(ns[1..], level);
      var bs := Blocks(ns, level);
      assert bs == [NodeLines(ns[0], level)] + Blocks(ns[1..], level);
      assert bs[1..] == Blocks(ns[1..], level);
    }
  }

  /**
   * The line each node of `ns` starts on when their lines are laid out one
   * after another from line `k`, then the line after the last node's lines.
   */
  function Starts(ns: seq<Node>, level: nat, k: nat): (r: seq<nat>)
    ensures |r| == |ns| + 1 && r[0] == k
  {
    Offsets(Lengths(Blocks(ns, level)), k)
  }

  /** Node `i + 1` starts where node `i`'s lines end. */
  lemma StartsStep(ns: seq<Node>, level: nat, k: nat, i: nat)
    requires i < |ns|
    ensures Starts(ns, level, k)[i + 1] == Starts(ns, level, k)[i] + |NodeLines(ns[i], level)|
  {
    OffsetsStep(Lengths(Blocks(ns, level)), k, i);
    LengthAt(Blocks(ns, level), i);
    BlockOfNode(ns, level, i);
  }

  /** The last node's lines end where the forest's lines do. */
  lemma StartsEnd(ns: seq<Node>, level: nat, k: nat)
    ensures Starts(ns, level, k)[|ns|] == k + |ForestLines(ns, level)|
  {
    OffsetsEnd(Lengths(Blocks(ns, level)), k);
    LengthsSum(Blocks(ns, level));
    ForestIsFlatten(ns, level);
  }

  /** The lines of the node `n` stand in `lines` from `k` on. */
  predicate NodeAt(lines: seq<string>, k: nat, n: Node, level: nat) {
    IsAt(lines, k, NodeLines(n, level))
  }

  /** The lines of the forest `ns` stand in `lines` from `k` on. */
  predicate ForestAt(lines: seq<string>, k: nat, ns: seq<Node>, level: nat) {
    IsAt(lines, k, ForestLines(ns, level))
  }

  /** The lines of a forest standing at `k`: node `i`'s lines stand at its start. */
  lemma {:induction false} NodeLaidOut(lines: seq<string>, k: nat, ns: seq<Node>, level: nat, i: nat)
    requires ForestAt(lines, k, ns, level) && i < |ns|
    ensures NodeAt(lines, Starts(ns, level, k)[i], ns[i], level)
  {
    ForestIsFlatten(ns, level);
    BlockLaidOut(lines, k, Blocks(ns, level), i);
    BlockOfNode(ns, level, i);
  }

  /** Plain nodes whose lines stand at `k` are read back in turn, each alone from its own lines. */
  lemma {:induction false} ForestReadInTurn(lines: seq<string>, k: nat, ns: seq<Node>, level: nat)
    requires PlainForest(ns) && IsAt(lines, k, ForestLines(ns, level))
    ensures ReadInTurn(lines, Starts(ns, level, k), ns)
    ensures Starts(ns, level, k)[|ns|] == k + |ForestLines(ns, level)|
    decreases ns, 1
  {
    StartsEnd(ns, level, k);
    var ps := Starts(ns, level, k);
    forall i | 0 <= i < |ns| ensures ReadsAlone(lines, ps[i], ns[i], ps[i + 1]) {
      StartsStep(ns, level, k, i);
      NodeLaidOut(lines, k, ns, level, i);
      NodeReadsAlone(lines, ps[i], ns[i], level);
    }
  }

  /** A plain node whose lines stand at `k` is read alone from exactly those lines. */
  lemma {:induction false} NodeReadsAlone(lines: seq<string>, k: nat, n: Node, level: nat)
    requires PlainNode(n) && IsAt(lines, k, NodeLines(n, level))
    ensures ReadsAlone(lines, k, n, k + |NodeLines(n, level)|)
    decreases n, 3
  {
    NodeParses(lines, k, n, level);
    FirstLineAt(lines, k, n, level);
  }

  /** The first line of a plain node, a value line or an opening line, does not close an object. */
  lemma FirstLineIsNoObjectEnd(n: Node, level: nat)
    requires PlainNode(n)
    ensures !IsObjectEnd(NodeLines(n, level)[0])
  {
    if PlainScalar(n) {
      PlainScalarLine(n, level);
    } else {
      OpenLineFacts(n.key, level);
    }
  }

  /**
   * Reading plain nodes up to the end of the text, where the final line
   * break leaves one empty line: exactly those nodes.
   */
  lemma ForestParsesLines(lines: seq<string>, k: nat, ns: seq<Node>, level: nat)
    requires PlainForest(ns) && IsAt(lines, k, ForestLines(ns, level))
    requires k + |ForestLines(ns, level)| + 1 == |lines| && lines[|lines| - 1] == ""
    ensures ParseLines(lines, k) == Ok(ns)
  {
    ForestReadInTurn(lines, k, ns, level);
    LinesReadInTurn(lines, Starts(ns, level, k), ns, k);
  }

  /**
   * `deserialize(serialize(tree))` gives back the tree, for a root whose
   * children are all plain.
   */
  lemma SerializeDeserialize(tree: Node)
    requires tree == Node("root", "tree", Null, tree.nodes) && PlainForest(tree.nodes)
    ensures Deserialize(Serialize(tree)) == Ok(tree)
  {
    var lines := ForestLines(tree.nodes, 0);
    SerializeForestLines(tree.nodes, 0, true);
    ForestLinesSingle(tree.nodes, 0);
    SplitUnlines(lines, "");
    assert Unlines(lines) + "" == Unlines(lines);
    var split := lines + [""];
    assert SplitLines(Serialize(tree)) == split;
    IsAtRest(split, 0);
    assert split[0..] == lines + [""];
    IsAtSplit(split, 0, split[0..], lines, [""]);
    ForestParsesLines(split, 0, tree.nodes, 0);
  }

  /**
   * One int, bool, string or custom node written at level 0 reads back as
   * a root holding exactly that node: the trailing line break adds nothing.
   */
  lemma SingleLineRoundTrip(n: Node)
    requires AllKeyChars(n.key) && PlainScalar(n)
    ensures Deserialize(SerializeValueNode(n, 0)) == Ok(Node("root", "tree", Null, [n]))
  {
    var tree := Node("root", "tree", Null, [n]);
    assert PlainNode(n);
    assert PlainForest([n]);
    assert SerializeNode(n, 0, true) == SerializeValueNode(n, 0);
    assert [n][1..] == [];
    assert SerializeTree([n], 0, true) == SerializeNode(n, 0, true) + SerializeTree([], 0, true);
    assert Serialize(tree) == SerializeValueNode(n, 0);
    SerializeDeserialize(tree);
  }
}
