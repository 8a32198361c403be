/**
 * The serializer, index.js:102-173 and 364-366.
 *
 * Every node becomes whole lines, each ending in a line break and indented
 * by two spaces per level: a scalar node one line `key: value`, an object
 * its line `key {`, its children one level deeper and a line `}`. A node of
 * type `"tree"` becomes one quoted value holding the escaped text of its own
 * children; written from the root, that text is also cut into lines which
 * are quoted one by one.
 */
module Serializer {
  import opened Wrappers
  import opened Strings
  import opened Numbers
  import opened TreeModel
  import opened Escaping

  /** JavaScript's `${v}`: the text a template literal gives for the stored scalar. */
  function ValueString(v: Value): string {
    match v
    case Null => "null"
    case Text(t) => t
    case Int(i) => IntToString(i)
    case Float(d) => DecimalToString(d)
    case Bool(b) => if b then "true" else "false"
    case NaN => "NaN"
  }

  /**
   * `v % 1 === 0`: JavaScript first turns the scalar into a number; text is
   * read as `Number` reads it (blank text is 0), `true`, `false` and `null`
   * become 1, 0 and 0.
   */
  predicate IsWholeValue(v: Value) {
    match v
    case Null => true
    case Text(t) => Trim(t) == "" || (match ParseFloatText(t) case Some(d) => IsWholeDecimal(d) case None => false)
    case Int(_) => true
    case Float(d) => IsWholeDecimal(d)
    case Bool(_) => true
    case NaN => false
  }

  /**
   * What `_serializeValueNode` writes after `key: `: an int as it is, a
   * float with `.0` added when it is whole, a string in double quotes and
   * anything else as it is.
   */
  function ValueRendering(node: Node): string {
    var text := ValueString(node.value);
    if node.kind == "float" || node.kind == "int" then
      if node.kind == "int" then text
      else if IsWholeValue(node.value) then text + ".0"
      else text
    else if node.kind == "string" then "\"" + text + "\""
    else text
  }

  /** The line `_serializeValueNode(node, level)` writes, without its line break. */
  function ValueLine(node: Node, level: nat): string {
    Indent(level) + node.key + ":" + " " + ValueRendering(node)
  }

  /** `_serializeValueNode(node, level)`, index.js:149-157: the line `key: value` and a line break. */
  function SerializeValueNode(node: Node, level: nat): (r: string)
    ensures StartsWith(r, Indent(level) + node.key + ": ")
    ensures EndsWith(r, "\n")
  {
    ValueLine(node, level) + "\n"
  }

  /**
   * `_serializeTree(tree, level, isRoot)`, index.js:102-108, on the node
   * whose children are `nodes`: the children written one after the other.
   */
  function SerializeTree(nodes: seq<Node>, level: nat, isRoot: bool): (r: string)
    ensures nodes == [] <==> r == ""
    ensures nodes != [] ==> EndsWith(r, "\n")
    decreases nodes, 1
  {
    if nodes == [] then "" else SerializeNode(nodes[0], level, isRoot) + SerializeTree(nodes[1..], level, isRoot)
  }

  /**
   * `_serializeNode(node, level, isRoot)`, index.js:116-142: a tree as one
   * quoted value holding its children's escaped text, an object as a block,
   * anything else as a value line.
   */
  function SerializeNode(node: Node, level: nat, isRoot: bool): (r: string)
    ensures StartsWith(r, Indent(level) + node.key)
    ensures EndsWith(r, "\n")
    decreases node, 1
  {
    if node.kind == "tree" then
      var escaped := EscapeSubTree(SerializeTree(node.nodes, 0, false));
      var body := if isRoot then JoinLines(QuoteRootLines(SplitLines(escaped), level)) else escaped;
      Indent(level) + node.key + ": \"" + body + (if isRoot then "\n" else "\"\n")
    else if node.kind == "object" then
      SerializeObjectNode(node, level, isRoot)
    else
      SerializeValueNode(node, level)
  }

  /** The line `key {` that opens an object, without its line break. */
  function OpenLine(key: string, level: nat): string {
    Indent(level) + key + " {"
  }

  /** The line `}` that closes an object, without its line break. */
  function CloseLine(level: nat): string {
    Indent(level) + "}"
  }

  /**
   * `_serializeObjectNode(node, level, isRoot)`, index.js:165-173: the line
   * `key {`, the children one level deeper, and the line `}`.
   */
  function SerializeObjectNode(node: Node, level: nat, isRoot: bool): (r: string)
    ensures StartsWith(r, OpenLine(node.key, level) + "\n")
    ensures EndsWith(r, CloseLine(level) + "\n")
    decreases node, 0
  {
    OpenLine(node.key, level) + "\n" + SerializeTree(node.nodes, level + 1, isRoot) + (CloseLine(level) + "\n")
  }

  /**
   * The loop of index.js:125-132 on the lines of an escaped sub-tree written
   * from the root: the first line gets a closing quote, every later line is
   * indented and quoted on both sides.
   */
  function QuoteRootLines(lines: seq<string>, level: nat): (r: seq<string>)
    requires |lines| >= 1
    ensures |r| == |lines|
    ensures r[0] == lines[0] + "\""
    ensures forall i :: 1 <= i < |r| ==> r[i] == Indent(level) + "\"" + lines[i] + "\""
  {
    [lines[0] + "\""] + QuoteLaterLines(lines[1..], level)
  }

  function QuoteLaterLines(lines: seq<string>, level: nat): (r: seq<string>)
    ensures |r| == |lines|
    ensures forall i :: 0 <= i < |r| ==> r[i] == Indent(level) + "\"" + lines[i] + "\""
  {
    if lines == [] then [] else [Indent(level) + "\"" + lines[0] + "\""] + QuoteLaterLines(lines[1..], level)
  }

  /**
   * What `${v}` gives for the scalars the reader types back: an integer's
   * text reads back as that integer and has no point, a boolean is `true`
   * or `false`, and text is itself.
   */
  lemma ValueStringFacts(v: Value)
    ensures v.Int? ==> ParseIntText(ValueString(v)) == Some(v.i) && '.' !in ValueString(v)
    ensures v.Bool? ==> ValueString(v) == (if v.b then "true" else "false")
    ensures v.Text? ==> ValueString(v) == v.text
  {
    if v.Int? {
      IntToStringRoundTrip(v.i);
    }
  }

  /** `serialize(tree)`, index.js:364-366: the root's children from level 0, as the root. */
  function Serialize(tree: Node): (r: string)
    ensures tree.nodes == [] <==> r == ""
    ensures r != "" ==> EndsWith(r, "\n")
  {
    SerializeTree(tree.nodes, 0, true)
  }

  /** Writing two runs of children writes the first run, then the second. */
  lemma {:induction false} SerializeTreeAppend(a: seq<Node>, b: seq<Node>, level: nat, isRoot: bool)
    ensures SerializeTree(a + b, level, isRoot) == SerializeTree(a, level, isRoot) + SerializeTree(b, level, isRoot)
  {
    if a == [] {
      assert a + b == b;
    } else {
      assert (a + b)[0] == a[0] && (a + b)[1..] == a[1..] + b;
      SerializeTreeAppend(a[1..], b, level, isRoot);
      var head := SerializeNode(a[0], level, isRoot);
      ConcatAssoc(head, SerializeTree(a[1..], level, isRoot), SerializeTree(b, level, isRoot));
    }
  }
}
