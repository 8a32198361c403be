/**
 * The deserializer, index.js:180-227 and 372-374.
 *
 * The text is split into lines and read with a cursor. Each call reading a
 * node reports how many lines it consumed: one for an empty line, one for
 * a value line, all lines of an embedded sub-document for a sub-tree value,
 * and the opening line, the children's lines and the closing line for an
 * object.
 *
 * `ParseTree`, `ParseLines`, `ParseNode` and `ParseBody` say what reading
 * produces; the methods `DeserializeTree` and `DeserializeNode` read with
 * index.js's cursors and loops and are proved to produce exactly that.
 * A line the reader cannot classify and an object that is never closed
 * are errors (index.js throws in both cases).
 */
module Deserializer {
  import opened Wrappers
  import opened Strings
  import opened Numbers
  import opened TreeModel
  import opened Patterns
  import opened Escaping
  import opened TypeInference

  /** Why reading stopped: a line matching neither pattern, or the text ended inside an object. */
  datatype ParseError = UnrecognizedLine(index: nat) | UnclosedObject

  datatype Result<T> = Ok(value: T) | Err(error: ParseError)

  /** Nodes read from a run of lines and the number of lines consumed. */
  datatype Parsed = Parsed(nodes: seq<Node>, consumed: nat)

  /** The node a value line stands for once its text is typed. */
  function ValueNode(key: string, text: string): (n: Node)
    ensures n.key == key && n.nodes == []
    ensures n.kind == InferType(text).kind && n.value == InferType(text).value
  {
    var typed := InferType(text);
    Node(key, typed.kind, typed.value, [])
  }

  /** `_deserializeTree(content, key)`: a `"tree"` node whose children are read from the lines of `content`. */
  function ParseTree(content: string, key: string): (r: Result<Node>)
    ensures r.Ok? ==> r.value.key == key && r.value.kind == "tree" && r.value.value == Null
  {
    TreeOf(key, ParseLines(SplitLines(content), 0))
  }

  /** The `"tree"` node named `key` holding the nodes read, or the error that stopped reading. */
  function TreeOf(key: string, read: Result<seq<Node>>): (r: Result<Node>)
    ensures r.Ok? <==> read.Ok?
    ensures r.Ok? ==> r.value == Node(key, "tree", Null, read.value)
    ensures r.Err? ==> r.error == read.error
  {
    match read
    case Ok(nodes) => Ok(Node(key, "tree", Null, nodes))
    case Err(e) => Err(e)
  }

  /**
   * The loop of `_deserializeTree` from line `i` on: the nodes of each line
   * in turn, in line order; each line gives at most one node.
   */
  function ParseLines(lines: seq<string>, i: nat): (r: Result<seq<Node>>)
    requires i <= |lines|
    ensures i == |lines| ==> r == Ok([])
    ensures r.Ok? ==> |r.value| <= |lines| - i
    decreases LinesLen(lines), |lines| - i, 2
  {
    if i == |lines| then Ok([]) else ParseLinesAfter(lines, i, ParseNode(lines, i))
  }

  /** The nodes read from line `i` on, once reading line `i` gave `first`. */
  function ParseLinesAfter(lines: seq<string>, i: nat, first: Result<Parsed>): (r: Result<seq<Node>>)
    requires i < |lines| && (first.Ok? ==> 1 <= first.value.consumed <= |lines| - i)
    requires first.Ok? ==> |first.value.nodes| <= first.value.consumed
    ensures r.Ok? ==> |r.value| <= |lines| - i
    decreases LinesLen(lines), |lines| - i, 1
  {
    match first
    case Err(e) => Err(e)
    case Ok(p) => Prepend(p.nodes, ParseLines(lines, i + p.consumed))
  }

  /**
   * `_deserializeNode` at line `i`: the nodes it appends to the parent (at
   * most one) and the lines it consumes (at least one). An empty line is
   * skipped; any other line is read by `ParseEntry`.
   */
  function ParseNode(lines: seq<string>, i: nat): (r: Result<Parsed>)
    requires i < |lines|
    ensures r.Ok? ==> 1 <= r.value.consumed <= |lines| - i && |r.value.nodes| <= 1
    decreases LinesLen(lines), |lines| - i, 0, 3
  {
    if lines[i] == "" then Ok(Parsed([], 1)) else ParseEntry(lines, i)
  }

  /**
   * The rest of `_deserializeNode` (index.js:200-226) on a line that is not
   * empty: a value line, an object start, or an error naming the line.
   */
  function ParseEntry(lines: seq<string>, i: nat): (r: Result<Parsed>)
    requires i < |lines|
    ensures r.Ok? ==> 1 <= r.value.consumed <= |lines| - i && |r.value.nodes| == 1
    decreases LinesLen(lines), |lines| - i, 0, 2
  {
    match MatchValue(lines[i])
    case Some(cap) => ParseValueLine(lines, i, cap)
    case None =>
      match MatchObject(lines[i])
      case Some(key) => ParseObject(lines, i, key)
      case None => Err(UnrecognizedLine(i))
  }

  /**
   * A value line (index.js:202-212): a sub-tree value gives the tree read
   * from the sub-document starting on this line and consumes its lines;
   * any other value gives one node typed from its text.
   */
  function ParseValueLine(lines: seq<string>, i: nat, cap: ValueCapture): (r: Result<Parsed>)
    requires i < |lines| && MatchValue(lines[i]) == Some(cap)
    ensures r.Ok? ==> 1 <= r.value.consumed <= |lines| - i && |r.value.nodes| == 1
    decreases LinesLen(lines), |lines| - i, 0, 1
  {
    if IsSubTreeValue(cap.value) then
      var raw := GetSubTreeRaw(i, lines);
      SubTreeShrinks(lines, i);
      LinesLenSuffix(lines, i);
      match TreeOf(cap.key, ParseLines(SplitLines(raw.content), 0))
      case Ok(t) => Ok(Parsed([t], raw.parsedLines))
      case Err(e) => Err(e)
    else Ok(Parsed([ValueNode(cap.key, cap.value)], 1))
  }

  /**
   * An object start (index.js:213-223): one object holding the children
   * read up to its closing line; the opening and closing lines are
   * consumed with them.
   */
  function ParseObject(lines: seq<string>, i: nat, key: string): (r: Result<Parsed>)
    requires i < |lines|
    ensures r.Ok? ==> 2 <= r.value.consumed <= |lines| - i && |r.value.nodes| == 1
    decreases LinesLen(lines), |lines| - i, 0, 1
  {
    match ParseBody(lines, i + 1)
    case Ok(p) => Ok(Parsed([Node(key, "object", Null, p.nodes)], p.consumed + 2))
    case Err(e) => Err(e)
  }

  /**
   * The `while` loop of index.js:219-221 from line `k` on: the children of
   * an object up to the first line ending in `}`. `consumed` counts the
   * children's lines, not the closing line.
   */
  function ParseBody(lines: seq<string>, k: nat): (r: Result<Parsed>)
    requires k <= |lines|
    ensures r.Ok? ==> k + r.value.consumed < |lines|
    decreases LinesLen(lines), |lines| - k, 2
  {
    if k == |lines| then Err(UnclosedObject)
    else if IsObjectEnd(lines[k]) then Ok(Parsed([], 0))
    else ParseBodyAfter(lines, k, ParseNode(lines, k))
  }

  /** The children read from line `k` on, once reading line `k` gave `first`. */
  function ParseBodyAfter(lines: seq<string>, k: nat, first: Result<Parsed>): (r: Result<Parsed>)
    requires k < |lines| && (first.Ok? ==> 1 <= first.value.consumed <= |lines| - k)
    ensures r.Ok? ==> k + r.value.consumed < |lines|
    decreases LinesLen(lines), |lines| - k, 1
  {
    match first
    case Err(e) => Err(e)
    case Ok(p) => PrependParsed(p.nodes, p.consumed, ParseBody(lines, k + p.consumed))
  }

  /** `deserialize(content)`, index.js:372-374: the tree is named `root`. */
  function Deserialize(content: string): (r: Result<Node>)
    ensures r.Ok? ==> r.value.key == "root" && r.value.kind == "tree"
  {
    ParseTree(content, "root")
  }

  /** A successful result with `nodes` in front of its nodes; an error passes through. */
  function Prepend(nodes: seq<Node>, r: Result<seq<Node>>): (p: Result<seq<Node>>)
    ensures p.Ok? <==> r.Ok?
  {
    match r
    case Ok(rest) => Ok(nodes + rest)
    case Err(e) => Err(e)
  }

  /** A successful result with `nodes` and `n` consumed lines in front; an error passes through. */
  function PrependParsed(nodes: seq<Node>, n: nat, r: Result<Parsed>): (p: Result<Parsed>)
    ensures p.Ok? <==> r.Ok?
  {
    match r
    case Ok(q) => Ok(Parsed(nodes + q.nodes, n + q.consumed))
    case Err(e) => Err(e)
  }

  /** Reading on from line `i`: the nodes of line `i`, then those of the lines after it. */
  lemma ParseLinesStep(lines: seq<string>, i: nat, p: Parsed)
    requires i < |lines| && ParseNode(lines, i) == Ok(p)
    ensures ParseLines(lines, i) == Prepend(p.nodes, ParseLines(lines, i + p.consumed))
  {
  }

  /** Reading an object's children on from line `k`: the nodes of line `k`, then the rest. */
  lemma ParseBodyStep(lines: seq<string>, k: nat, p: Parsed)
    requires k < |lines| && !IsObjectEnd(lines[k]) && ParseNode(lines, k) == Ok(p)
    ensures ParseBody(lines, k) == PrependParsed(p.nodes, p.consumed, ParseBody(lines, k + p.consumed))
  {
  }

  /** The `m` lines of the nodes of line `k`, then the children read after them, make up `all`. */
  lemma ParseBodyCons(lines: seq<string>, k: nat, nodes: seq<Node>, m: nat, rest: seq<Node>, mr: nat, all: seq<Node>, total: nat)
    requires k < |lines| && !IsObjectEnd(lines[k]) && ParseNode(lines, k) == Ok(Parsed(nodes, m))
    requires ParseBody(lines, k + m) == Ok(Parsed(rest, mr))
    requires all == nodes + rest && total == m + mr
    ensures ParseBody(lines, k) == Ok(Parsed(all, total))
  {
    ParseBodyStep(lines, k, Parsed(nodes, m));
  }

  /** The `m` lines of the nodes of line `i`, then the nodes read after them, make up `all`. */
  lemma ParseLinesCons(lines: seq<string>, i: nat, nodes: seq<Node>, m: nat, rest: seq<Node>, all: seq<Node>)
    requires i < |lines| && ParseNode(lines, i) == Ok(Parsed(nodes, m))
    requires ParseLines(lines, i + m) == Ok(rest)
    requires all == nodes + rest
    ensures ParseLines(lines, i) == Ok(all)
  {
    ParseLinesStep(lines, i, Parsed(nodes, m));
  }

  /** The empty line the final line break leaves reads as nothing. */
  lemma ParseLinesLastEmpty(lines: seq<string>)
    requires |lines| > 0 && lines[|lines| - 1] == ""
    ensures ParseLines(lines, |lines| - 1) == Ok([])
  {
    var i := |lines| - 1;
    assert ParseNode(lines, i) == Ok(Parsed([], 1));
    assert ParseLines(lines, i + 1) == Ok([]);
    var none: seq<Node> := [];
    assert none + none == none;
  }

  /**
   * Reading line `k` gives exactly the node `n`, from lines `k` up to (not
   * including) `e`; line `k` does not close an object.
   */
  predicate ReadsAlone(lines: seq<string>, k: nat, n: Node, e: nat) {
    k < |lines| && !IsObjectEnd(lines[k]) && k <= e && ParseNode(lines, k) == Ok(Parsed([n], e - k))
  }

  /**
   * Node `ns[i]` is read alone from lines `ps[i]` up to `ps[i + 1]`: the
   * nodes stand one after another from line `ps[0]` to line `ps[|ns|]`.
   */
  predicate ReadInTurn(lines: seq<string>, ps: seq<nat>, ns: seq<Node>) {
    |ps| == |ns| + 1 && forall i :: 0 <= i < |ns| ==> ReadsAlone(lines, ps[i], ns[i], ps[i + 1])
  }

  /** Nodes read in turn from `ps[i]` up to a closing line are exactly the children `ParseBody` reads there. */
  lemma {:induction false} BodyOfReadInTurn(lines: seq<string>, ps: seq<nat>, ns: seq<Node>, i: nat)
    requires ReadInTurn(lines, ps, ns) && i <= |ns|
    requires ps[|ns|] < |lines| && IsObjectEnd(lines[ps[|ns|]])
    ensures ps[i] <= ps[|ns|] && ParseBody(lines, ps[i]) == Ok(Parsed(ns[i..], ps[|ns|] - ps[i]))
    decreases |ns| - i
  {
    if i == |ns| {
      assert ns[i..] == [];
    } else {
      BodyOfReadInTurn(lines, ps, ns, i + 1);
      assert ReadsAlone(lines, ps[i], ns[i], ps[i + 1]);
      assert ns[i..] == [ns[i]] + ns[i + 1..];
      ParseBodyCons(lines, ps[i], [ns[i]], ps[i + 1] - ps[i], ns[i + 1..], ps[|ns|] - ps[i + 1], ns[i..], ps[|ns|] - ps[i]);
    }
  }

  /** Nodes read in turn from `ps[i]` up to the empty last line are exactly the nodes `ParseLines` reads there. */
  lemma {:induction false} LinesOfReadInTurn(lines: seq<string>, ps: seq<nat>, ns: seq<Node>, i: nat)
    requires ReadInTurn(lines, ps, ns) && i <= |ns|
    requires ps[|ns|] + 1 == |lines| && lines[|lines| - 1] == ""
    ensures ps[i] <= ps[|ns|] && ParseLines(lines, ps[i]) == Ok(ns[i..])
    decreases |ns| - i
  {
    if i == |ns| {
      assert ns[i..] == [];
      ParseLinesLastEmpty(lines);
    } else {
      LinesOfReadInTurn(lines, ps, ns, i + 1);
      assert ReadsAlone(lines, ps[i], ns[i], ps[i + 1]);
      assert ns[i..] == [ns[i]] + ns[i + 1..];
      ParseLinesCons(lines, ps[i], [ns[i]], ps[i + 1] - ps[i], ns[i + 1..], ns[i..]);
    }
  }

  /** Nodes read in turn from `k` up to a closing line `m` lines further on are the body read at `k`. */
  lemma BodyReadInTurn(lines: seq<string>, ps: seq<nat>, ns: seq<Node>, k: nat, m: nat)
    requires ReadInTurn(lines, ps, ns) && ps[0] == k && ps[|ns|] == k + m
    requires k + m < |lines| && IsObjectEnd(lines[k + m])
    ensures ParseBody(lines, k) == Ok(Parsed(ns, m))
  {
    BodyOfReadInTurn(lines, ps, ns, 0);
    assert ns[0..] == ns;
  }

  /** Nodes read in turn from `k` up to the empty last line are all that `ParseLines` reads at `k`. */
  lemma LinesReadInTurn(lines: seq<string>, ps: seq<nat>, ns: seq<Node>, k: nat)
    requires ReadInTurn(lines, ps, ns) && ps[0] == k && k < |lines|
    requires ps[|ns|] + 1 == |lines| && lines[|lines| - 1] == ""
    ensures ParseLines(lines, k) == Ok(ns)
  {
    LinesOfReadInTurn(lines, ps, ns, 0);
    assert ns[0..] == ns;
  }

  /** Nodes read in turn from `ps[i]` up to the last line are exactly the nodes `ParseLines` reads there. */
  lemma {:induction false} LinesOfReadToEnd(lines: seq<string>, ps: seq<nat>, ns: seq<Node>, i: nat)
    requires ReadInTurn(lines, ps, ns) && i <= |ns| && ps[|ns|] == |lines|
    ensures ps[i] <= |lines| && ParseLines(lines, ps[i]) == Ok(ns[i..])
    decreases |ns| - i
  {
    if i == |ns| {
      assert ns[i..] == [];
    } else {
      LinesOfReadToEnd(lines, ps, ns, i + 1);
      assert ReadsAlone(lines, ps[i], ns[i], ps[i + 1]);
      assert ns[i..] == [ns[i]] + ns[i + 1..];
      ParseLinesCons(lines, ps[i], [ns[i]], ps[i + 1] - ps[i], ns[i + 1..], ns[i..]);
    }
  }

  /** Nodes read in turn from line 0 to the very end: `ParseLines` reads exactly them, with no empty line after them. */
  lemma LinesReadToEnd(lines: seq<string>, ps: seq<nat>, ns: seq<Node>)
    requires ReadInTurn(lines, ps, ns) && ps[0] == 0 && ps[|ns|] == |lines|
    ensures ParseLines(lines, 0) == Ok(ns)
  {
    LinesOfReadToEnd(lines, ps, ns, 0);
    assert ns[0..] == ns;
  }

  /** The line after the children an object's body reads is the line that closes the object. */
  lemma {:induction false} ParseBodyCloses(lines: seq<string>, k: nat)
    requires k <= |lines| && ParseBody(lines, k).Ok?
    ensures IsObjectEnd(lines[k + ParseBody(lines, k).value.consumed])
    decreases |lines| - k
  {
    if !IsObjectEnd(lines[k]) {
      var p := ParseNode(lines, k).value;
      ParseBodyStep(lines, k, p);
      ParseBodyCloses(lines, k + p.consumed);
    }
  }

  /** An empty line is skipped: it appends nothing and is consumed alone. */
  lemma ParseNodeEmpty(lines: seq<string>, i: nat)
    requires i < |lines| && lines[i] == ""
    ensures ParseNode(lines, i) == Ok(Parsed([], 1))
  {
  }

  /** A value line whose value is not a sub-tree gives one node typed from the value's text. */
  lemma ParseNodeValue(lines: seq<string>, i: nat, cap: ValueCapture)
    requires i < |lines| && lines[i] != "" && MatchValue(lines[i]) == Some(cap) && !IsSubTreeValue(cap.value)
    ensures ParseNode(lines, i) == Ok(Parsed([ValueNode(cap.key, cap.value)], 1))
  {
    assert ParseValueLine(lines, i, cap) == Ok(Parsed([ValueNode(cap.key, cap.value)], 1));
  }

  /** A value line holding a sub-tree gives the tree read from the sub-document starting there. */
  lemma ParseNodeSubTree(lines: seq<string>, i: nat, cap: ValueCapture)
    requires i < |lines| && lines[i] != "" && MatchValue(lines[i]) == Some(cap) && IsSubTreeValue(cap.value)
    ensures var raw := GetSubTreeRaw(i, lines);
      ParseNode(lines, i) == match ParseTree(raw.content, cap.key)
        case Ok(t) => Ok(Parsed([t], raw.parsedLines))
        case Err(e) => Err(e)
  {
    var raw := GetSubTreeRaw(i, lines);
    assert ParseValueLine(lines, i, cap) == match ParseTree(raw.content, cap.key)
      case Ok(t) => Ok(Parsed([t], raw.parsedLines))
      case Err(e) => Err(e);
  }

  /**
   * An object start gives one object holding the children read up to its
   * closing line; the opening and closing lines are consumed with them.
   */
  lemma ParseNodeObject(lines: seq<string>, i: nat, key: string)
    requires i < |lines| && lines[i] != "" && !IsValue(lines[i]) && MatchObject(lines[i]) == Some(key)
    ensures ParseNode(lines, i) == match ParseBody(lines, i + 1)
      case Ok(p) => Ok(Parsed([Node(key, "object", Null, p.nodes)], p.consumed + 2))
      case Err(e) => Err(e)
  {
    assert ParseObject(lines, i, key) == match ParseBody(lines, i + 1)
      case Ok(p) => Ok(Parsed([Node(key, "object", Null, p.nodes)], p.consumed + 2))
      case Err(e) => Err(e);
  }

  /** A line that is not empty, not a value line and not an object start is an error at its index. */
  lemma ParseNodeUnrecognized(lines: seq<string>, i: nat)
    requires i < |lines| && lines[i] != "" && !IsValue(lines[i]) && !IsObjectStart(lines[i])
    ensures ParseNode(lines, i) == Err(UnrecognizedLine(i))
  {
  }

  /**
   * One turn of the loop of `_deserializeTree`: once the node at line `i`
   * has been read, taking `m` lines and making the children `after` out of
   * `before`, the nodes still to be read start at line `i + m`.
   */
  lemma ParseLinesTurn(lines: seq<string>, i: nat, before: seq<Node>, after: seq<Node>, m: nat, whole: Result<seq<Node>>)
    requires i < |lines| && ParseNode(lines, i).Ok?
    requires m == ParseNode(lines, i).value.consumed && after == before + ParseNode(lines, i).value.nodes
    requires whole == Prepend(before, ParseLines(lines, i))
    ensures i + m <= |lines| && whole == Prepend(after, ParseLines(lines, i + m))
  {
    var p := ParseNode(lines, i).value;
    ParseLinesStep(lines, i, p);
    PrependTwice(before, p.nodes, ParseLines(lines, i + p.consumed));
  }

  /**
   * One turn of the object loop: once the node at line `k` has been read,
   * taking `m` lines and making the children `after` out of `before`, the
   * children still to be read start at line `k + m`.
   */
  lemma ParseBodyTurn(lines: seq<string>, k: nat, before: seq<Node>, after: seq<Node>, n: nat, m: nat, body: Result<Parsed>)
    requires k < |lines| && !IsObjectEnd(lines[k]) && ParseNode(lines, k).Ok?
    requires m == ParseNode(lines, k).value.consumed && after == before + ParseNode(lines, k).value.nodes
    requires body == PrependParsed(before, n, ParseBody(lines, k))
    ensures k + m <= |lines| && body == PrependParsed(after, n + m, ParseBody(lines, k + m))
  {
    var p := ParseNode(lines, k).value;
    ParseBodyStep(lines, k, p);
    PrependParsedTwice(before, n, p.nodes, p.consumed, ParseBody(lines, k + p.consumed));
  }

  lemma PrependTwice(a: seq<Node>, b: seq<Node>, r: Result<seq<Node>>)
    ensures Prepend(a, Prepend(b, r)) == Prepend(a + b, r)
  {
    if r.Ok? {
      assert a + (b + r.value) == (a + b) + r.value;
    }
  }

  lemma PrependParsedTwice(a: seq<Node>, m: nat, b: seq<Node>, n: nat, r: Result<Parsed>)
    ensures PrependParsed(a, m, PrependParsed(b, n, r)) == PrependParsed(a + b, m + n, r)
  {
    if r.Ok? {
      assert a + (b + r.value.nodes) == (a + b) + r.value.nodes;
    }
  }

  /**
   * `_deserializeTree(content, key)` with its `for` loop: a new `"tree"`
   * node, with the nodes of each line appended in turn. It builds exactly
   * the tree `ParseTree` describes, or stops with the same error.
   */
  method DeserializeTree(content: string, key: string) returns (res: Result<DefTreeNode>)
    ensures res.Ok? ==> fresh(res.value) && ParseTree(content, key) == Ok(res.value.Snapshot())
    ensures res.Err? ==> ParseTree(content, key) == Err(res.error)
    decreases |content| + 2, 0, 0
  {
    var node := new DefTreeNode(key, "tree", Null);
    var lines := SplitLines(content);
    ghost var whole := ParseLines(lines, 0);
    assert Prepend([], whole) == whole by {
      if whole.Ok? {
        assert [] + whole.value == whole.value;
      }
    }
    var i: nat := 0;
    while i < |lines|
      invariant i <= |lines|
      invariant fresh(node) && node.key == key && node.kind == "tree" && node.value == Null
      invariant whole == Prepend(node.nodes, ParseLines(lines, i))
      decreases |lines| - i
    {
      ghost var before := node.nodes;
      var consumed := DeserializeNode(node, i, lines);
      if consumed.Err? {
        return Err(consumed.error);
      }
      ParseLinesTurn(lines, i, before, node.nodes, consumed.value, whole);
      i := i + consumed.value - 1;
      i := i + 1;
    }
    assert whole == Ok(node.nodes) by {
      assert node.nodes + [] == node.nodes;
    }
    return Ok(node);
  }

  /**
   * `_deserializeNode(parent, lineIndex, lines)`: appends the node the line
   * at `lineIndex` starts to `parent` and answers the number of lines
   * consumed, exactly as `ParseNode` describes; an object's children are
   * read by the `while` loop of index.js:219-221.
   */
  method DeserializeNode(parent: DefTreeNode, lineIndex: nat, lines: seq<string>) returns (res: Result<nat>)
    requires lineIndex < |lines|
    modifies parent`nodes
    ensures res.Ok? <==> ParseNode(lines, lineIndex).Ok?
    ensures res.Ok? ==>
      && res.value == ParseNode(lines, lineIndex).value.consumed
      && parent.nodes == old(parent.nodes) + ParseNode(lines, lineIndex).value.nodes
    ensures res.Err? ==> res.error == ParseNode(lines, lineIndex).error
    decreases LinesLen(lines), |lines| - lineIndex, 0
  {
    var line := lines[lineIndex];
    if line == "" {
      return Ok(1);
    }
    var parsedLines: nat := 1;
    if IsValue(line) {
      var cap := MatchValue(line).value;
      if IsSubTreeValue(cap.value) {
        var raw := GetSubTreeRaw(lineIndex, lines);
        SubTreeShrinks(lines, lineIndex);
        LinesLenSuffix(lines, lineIndex);
        ParseNodeSubTree(lines, lineIndex, cap);
        var sub := DeserializeTree(raw.content, cap.key);
        if sub.Err? {
          return Err(sub.error);
        }
        parent.PushNode(sub.value.Snapshot());
        parsedLines := parsedLines + raw.parsedLines - 1;
      } else {
        ParseNodeValue(lines, lineIndex, cap);
        var node := new DefTreeNode(cap.key, "value", Text(cap.value));
        StrictTypesForNode(node);
        parent.PushNode(node.Snapshot());
      }
    } else if IsObjectStart(line) {
      var key := MatchObject(line).value;
      ParseNodeObject(lines, lineIndex, key);
      var node := new DefTreeNode(key, "object", Null);
      var children := DeserializeChildren(node, lineIndex + 1, lines);
      if children.Err? {
        return Err(children.error);
      }
      parent.PushNode(node.Snapshot());
      parsedLines := children.value + 2;
    } else {
      ParseNodeUnrecognized(lines, lineIndex);
      return Err(UnrecognizedLine(lineIndex));
    }
    return Ok(parsedLines);
  }

  /**
   * The `while` loop of index.js:219-221: reads the children of the object
   * `node` from line `start` on, appending them to `node`, up to the first
   * line ending in `}`, and answers the number of lines the children took,
   * exactly as `ParseBody` describes. Running out of lines before that line
   * is `UnclosedObject`.
   */
  method DeserializeChildren(node: DefTreeNode, start: nat, lines: seq<string>) returns (res: Result<nat>)
    requires start <= |lines| && node.nodes == []
    modifies node`nodes
    ensures res.Ok? <==> ParseBody(lines, start).Ok?
    ensures res.Ok? ==> res.value == ParseBody(lines, start).value.consumed && node.nodes == ParseBody(lines, start).value.nodes
    ensures res.Err? ==> res.error == ParseBody(lines, start).error
    decreases LinesLen(lines), |lines| - start, 1
  {
    var parsed: nat := 0;
    ghost var body := ParseBody(lines, start);
    assert PrependParsed([], 0, body) == body by {
      if body.Ok? {
        assert [] + body.value.nodes == body.value.nodes;
      }
    }
    while start + parsed < |lines| && !IsObjectEnd(lines[start + parsed])
      invariant start + parsed <= |lines|
      invariant body == PrependParsed(node.nodes, parsed, ParseBody(lines, start + parsed))
      decreases |lines| - (start + parsed)
    {
      ghost var before := node.nodes;
      var consumed := DeserializeNode(node, start + parsed, lines);
      if consumed.Err? {
        return Err(consumed.error);
      }
      ParseBodyTurn(lines, start + parsed, before, node.nodes, parsed, consumed.value, body);
      parsed := parsed + consumed.value;
    }
    if start + parsed == |lines| {
      return Err(UnclosedObject);
    }
    assert body == Ok(Parsed(node.nodes, parsed)) by {
      assert node.nodes + [] == node.nodes;
    }
    return Ok(parsed);
  }
}
