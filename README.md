# deftreejs in Dafny

A model of deftreejs (`index.js`), a reader and writer for Defold
collection files. A Defold file is a tree written as lines:

- a value line is `key: value`;
- an object is a line `key {`, then its children one level deeper, then a
  line `}`;
- an embedded document is a value line `key: "…"` whose quoted text is a
  whole file of its own, escaped.

The model has these parts:

- **`TreeModel`**: the node, `DefTreeNode`. It is a class whose key, type,
  value and children are fields that its setters update in place. `SetType`
  accepts only the seven supported type names. `GetValue` answers with the
  children for a `"tree"` node and with the stored scalar otherwise.
- **`Strings`**: the JavaScript string operations the format uses. These
  are `trim`, `split(/\r?\n/)`, `join`, `substring` (with its clamping and
  argument swap), `replaceAll` of one character, and two-space indentation.
- **`Numbers`**: numeric text and how it is read and written. The model
  recognises plain decimal text the way `isNaN` does and reads it the way
  `parseInt` and `parseFloat` do. It prints integers and floats in plain
  positional decimal notation, which is what JavaScript prints for safe
  integers and for floats of moderate size. Integers are unbounded and
  floats are exact decimals; "## Left out" lists where JavaScript's
  doubles differ.
- **`Patterns`**: the two line patterns `valueRegex` and `objectRegex`,
  written as scanners over characters. They are proved sound and complete
  against the shape of a matching line. This module also holds the line
  classifiers and the sub-tree test `_isSubTreeValue`.
- **`Escaping`**: the escape and unescape passes. Each `replaceAll` with a
  lookbehind is one left-to-right scan that reads the lookbehind from its
  input. It also holds the quote scans and `_getSubTreeRaw`, which collects
  an embedded document. It proves that the collected document is shorter
  than the lines it came from, which is why reading nested documents
  terminates.
- **`TypeInference`**: `_strictTypesForNode`. It is a specification
  function of the value text, and a method that updates a node through
  `SetType` and `SetValue`.
- **`Serializer`**: `_serializeTree`, `_serializeNode`,
  `_serializeValueNode`, `_serializeObjectNode` and `serialize`.
- **`Deserializer`**: `_deserializeTree`, `_deserializeNode` and
  `deserialize`.
  - The functions `ParseLines`, `ParseNode` and `ParseBody` say which nodes
    are read and how many lines each read consumes.
  - The methods `DeserializeTree`, `DeserializeNode` and
    `DeserializeChildren` keep index.js's cursor, its `for` loop and its
    `while` loop. They are proved to build exactly those nodes and to report
    exactly those line counts.
- **`RoundTrip`**: `deserialize(serialize(tree))` gives back `tree` for the
  plain trees. A plain tree is made of objects and of int, bool, string and
  custom scalars whose keys and texts are key characters. Its ints are safe
  integers (at most 2^53 − 1 in size), and its custom texts are not
  `Infinity`, which JavaScript reads as a number. The proof goes through
  the lines the serializer writes.
- **`EmbeddedRoundTrip`**: a root holding one embedded tree reads back as
  itself when the tree's children are plain. The proof follows the
  sub-document through the four escape passes, the per-line quoting at the
  root, the collection of the quoted lines up to `""`, the four unescape
  passes and the second read.

## Model

| member | source | states |
|---|---|---|
| `TreeModel.DefTreeNode.constructor` | index.js:35-40 | The node holds the given key, type and value and has no children. |
| `TreeModel.DefTreeNode.GetKey` | index.js:45-47 | Answers the key. |
| `TreeModel.DefTreeNode.SetKey` | index.js:52-54 | The key becomes the new key; type, value and children are unchanged. |
| `TreeModel.DefTreeNode.GetType` | index.js:59-61 | Answers the type name. |
| `TreeModel.DefTreeNode.SetType` | index.js:66-71 | Succeeds exactly when the name is one of the seven supported types. On success the type is that name; on failure it is unchanged. Key, value and children never change. |
| `TreeModel.DefTreeNode.GetValue` | index.js:76-78 | A `"tree"` node answers with its children; every other type answers with the stored value. |
| `TreeModel.DefTreeNode.SetValue` | index.js:83-86 | The value becomes the given one, unchecked against the type; nothing else changes. |
| `TreeModel.DefTreeNode.GetNodes` | index.js:91-93 | Answers the children. |
| `TreeModel.DefTreeNode.PushNode` | index.js:211 | `getNodes().push(n)`: `n` is appended after the existing children; nothing else changes. |
| `Strings.Span` | index.js:1-2 | The run measured from `from` ends at the end of the text or at a character outside the class. |
| `Strings.SpanRun` | index.js:1-2 | Every character of the measured run is in the class. |
| `Strings.SpanExact` | index.js:1-2 | Converse: a run of `n` class characters followed by the end or by a character outside the class measures exactly `n`. |
| `Strings.Trim` | index.js:283 | The trimmed text is no longer than the input and neither starts nor ends with whitespace. |
| `Strings.TrimOf` | index.js:283 | Converse: whitespace around a text that has no whitespace at either end trims to exactly that text. |
| `Strings.TrimSplit` | index.js:283 | `s` is leading whitespace, then `Trim(s)`, then trailing whitespace. |
| `Strings.SplitLines` | index.js:182 | `split(/\r?\n/)` gives at least one piece, and no piece holds `\n`. The pieces together are at most one character longer than the text. |
| `Strings.SplitUnlines` | index.js:182 | Single lines, each followed by a line break, split back into exactly those lines, followed by the pieces of whatever text comes after them. |
| `Strings.SplitJoinLines` | index.js:124-132 | Joining single lines with `\n` and splitting again gives the lines back. |
| `Strings.SplitLinesCrLf` | index.js:182 | A line followed by `\r\n` is split off exactly like a line followed by `\n`: the `\r` is dropped with the break. |
| `Strings.Substring` | index.js:345 | `substring(a, b)` is the slice between `a` and `b` when both are in range, and the arguments are swapped when `a > b`. |
| `Strings.RemoveChar` | index.js:240 | `replaceAll(c, "")` leaves no `c`, adds no character, and keeps text without `c` as it is. |
| `Strings.Indent` | index.js:151 | The indentation of level `n` is `2n` spaces. |
| `Numbers.NatToString` | index.js:151 | The decimal text of a natural number is digits without leading zeros and reads back as the number. |
| `Numbers.ScanLiteral` | index.js:234 | Recognised numeric text is a well-formed decimal literal that writes back as the text. |
| `Numbers.ScanLiteralComplete` | index.js:234 | Converse: every well-formed decimal literal is recognised as itself. |
| `Numbers.NotNumericText` | index.js:234 | Text that starts with neither a digit, `-` nor `.`, and has no surrounding whitespace, is not numeric. |
| `Numbers.ParseIntText` | index.js:250 | `parseInt` gives a number only for numeric text. `ParseIntDefined` and `ParseIntLiteral` state exactly when and which number. |
| `Numbers.ParseFloatText` | index.js:247 | `parseFloat` gives a number only for numeric text, and the number is normalised. `ParseFloatDefined` and `ParseFloatLiteral` state exactly when and which number. |
| `Numbers.ParseIntDefined` | index.js:234-251 | `parseInt` gives a number exactly for numeric text that is not blank and has a digit before its point. |
| `Numbers.ParseFloatDefined` | index.js:234-248 | `parseFloat` gives a number exactly for numeric text that is not blank; blank text is numeric to `isNaN` but reads as NaN. |
| `Numbers.ParseIntLiteral` | index.js:250 | `parseInt` of a literal with whitespace around it is the literal's signed integer part, or NaN when it has no digit before the point. |
| `Numbers.ParseFloatLiteral` | index.js:247 | `parseFloat` of a literal with whitespace around it is the number the literal denotes. |
| `Numbers.LiteralDecimal` | index.js:247 | The number of a literal is in normal form, and scaled by the literal's fraction length it equals the literal's signed digits. |
| `Numbers.DigitsValueAppend` | index.js:247 | The value of two runs of digits written one after the other is the first shifted by the second's length plus the second. |
| `Numbers.Normalize` | index.js:151 | Trailing zeros after the point are dropped without changing the number. |
| `Numbers.PadDigits` | index.js:151 | Zero padding keeps the value and has exactly the requested width, or the number's own width when that is larger. |
| `Numbers.DecimalToString` | index.js:151-155 | The text a float is printed as reads back through `parseFloat` as the same number in normal form, and has a point exactly when the float is not whole. |
| `Numbers.DecimalLiteral` | index.js:151 | The printed literal carries the sign and the digits of the normal form, a point exactly when the float is not whole, as many fraction digits as its scale, and at least one digit before the point. |
| `Numbers.WholeDecimalRoundTrip` | index.js:151 | A whole float printed with `.0` added, as `_serializeValueNode` writes it, reads back as the same number. |
| `Numbers.PointZero` | index.js:151 | A literal without a point reads as the same number with `.0` added. |
| `Numbers.LiteralPoint` | index.js:244 | The text of a literal holds a point exactly when the literal has one. |
| `Numbers.IntToStringRoundTrip` | index.js:244-251 | The text JavaScript prints for an integer is numeric, has no point, and `parseInt` reads it back as the same integer. |
| `Patterns.MatchValueSound` | index.js:1 | A line `valueRegex` matches has the value shape: whitespace, the captured key, `:`, one whitespace character, then the captured value. |
| `Patterns.MatchValueComplete` | index.js:1 | Converse: every line of the value shape matches, capturing exactly its key and value. |
| `Patterns.MatchObjectSound` | index.js:2 | A line `objectRegex` matches has the object shape: whitespace, the captured key, one whitespace character, then `{`. |
| `Patterns.MatchObjectComplete` | index.js:2 | Converse: every line of the object shape matches, capturing exactly its key. |
| `Patterns.ValueLineIsNotObjectEnd` | index.js:298-300 | A value line never ends with `}`, so it never closes an object. |
| `Patterns.ValueLineIsNoObjectStart` | index.js:260-292 | No line is both a value line (`_isValue`) and an object start (`_isObjectStart`). |
| `Patterns.ObjectStartIsNoObjectEnd` | index.js:290-300 | An object start (`_isObjectStart`) ends with `{`, so it never closes an object (`_isObjectEnd`). |
| `Patterns.SubTreeEndIsNoOther` | index.js:282-300 | A `""` line (`_isSubTreeEnd`) is no value line, no object start and no object end. |
| `Patterns.IndentedQuotesEndSubTree` | index.js:282-284 | The indented `""` line ends a sub-tree. |
| `Patterns.RemoveEscapeRuns` | index.js:271-272 | Deleting the backslash runs before `c` never lengthens the text. It keeps text without backslashes as it is, and leaves no backslash directly before `c`. The three lemmas after it state what is kept and what is deleted. |
| `Patterns.RemoveEscapeRunsDrop` | index.js:271-272 | A whole run of backslashes followed by `c` is deleted together with `c`; the rest is processed on its own. |
| `Patterns.RemoveEscapeRunsKeep` | index.js:271-272 | A whole run of backslashes followed by the end or by a character other than `c` is kept. |
| `Patterns.RemoveEscapeRunsCons` | index.js:271-272 | A character other than a backslash is kept in place. |
| `Patterns.SubTreeValueHasTwoQuotes` | index.js:268-276 | A sub-tree value has at least two characters and starts and ends with `"`. |
| `Patterns.LoneQuoteIsNoSubTree` | index.js:269-273 | A value shorter than two characters, such as a lone `"`, is not a sub-tree value, even though a lone `"` both starts and ends with a quote. |
| `Patterns.QuotedLineIsSubTreeValue` | index.js:268-276 | Converse for text without backslashes: a value line or an object start in double quotes is a sub-tree value. |
| `Escaping.ReplaceAllNotAfter` | index.js:119-122 | A replacement no longer than its pattern never lengthens the text. The lemmas after it state what the scan writes. |
| `Escaping.ReplaceAllNotAfterStep` | index.js:119-122 | The scan copies the text up to the first unguarded occurrence, writes the replacement instead of it, and resumes right after it, the guard being read from the input. |
| `Escaping.ReplaceAllNotAfterCopies` | index.js:119-122 | Text with no unguarded occurrence is copied unchanged. |
| `Escaping.ScanTake` | index.js:119-122 | At an unguarded occurrence the scan writes the replacement and goes on after the occurrence. |
| `Escaping.ScanSkip` | index.js:119-122 | Anywhere else the scan copies one character and goes on after it. |
| `Escaping.ScanCopies` | index.js:119-122 | Over a stretch with no unguarded occurrence the scan copies the stretch. |
| `Escaping.ReplaceAll` | index.js:347-350 | A pass with a replacement no longer than its pattern never lengthens the text, and a pass that finds nothing leaves it unchanged. |
| `Escaping.NoMatchWithout` | index.js:119-122 | A pattern whose first character does not occur in the text occurs nowhere in it. |
| `Escaping.EscapeSubTree` | index.js:119-122 | Text without backslashes, quotes or line breaks passes the four escape passes unchanged. |
| `Escaping.EscapeSubTreeOf` | index.js:119-122 | On text without backslashes the passes write every quote as `\"`, put a written `\n` before every line break that does not directly follow an `n` (the lookbehind of the fourth pass), and copy every other character. |
| `Escaping.UnescapeSubTree` | index.js:347-350 | The four unescape passes never lengthen the text. `EscapeRoundTrip` is their partner. |
| `Escaping.EscapeRoundTrip` | index.js:347-350 | The unescape passes give back exactly the text the escape passes were given, for every text without backslashes, including line breaks directly after `n`. |
| `Escaping.UnescapeWithoutBackslash` | index.js:347-350 | Text without backslashes passes through the unescape passes unchanged. |
| `Escaping.FirstQuoteIndex` | index.js:306-313 | The index is -1 exactly when there is no quote; otherwise a quote stands there and none before it. |
| `Escaping.LastQuoteIndex` | index.js:319-326 | The index is -1 exactly when there is no quote; otherwise a quote stands there and none after it. |
| `Escaping.QuotedPart` | index.js:343-345 | When the first quote comes before the last, the part is exactly the text between them. With one quote, `substring` swaps its ends and the part is that quote; with none it is empty. |
| `Escaping.CollectSubTree` | index.js:337-346 | The loop reads at least one line when any remain, and never more lines than remain. |
| `Escaping.CollectSubTreePasses` | index.js:337-342 | Every line the loop reads before its last is not a `""` line. |
| `Escaping.CollectSubTreeLast` | index.js:337-342 | When lines remain after the collected ones, the last collected line is a `""` line once trimmed. |
| `Escaping.CollectSubTreeLength` | index.js:337-346 | The collected text is no longer than the lines from the first collected line to the end. |
| `Escaping.GetSubTreeRaw` | index.js:334-358 | `1 <= parsedLines <=` the remaining lines, counted as the loop counts them. The content is the unescaped text with its trailing line break removed when it ends with one, and the unescaped text itself otherwise. |
| `Escaping.SubTreeShrinks` | index.js:205-207 | The document embedded at a sub-tree value line is at least four characters shorter than the lines from that line to the end. |
| `TypeInference.InferTypeClassifies` | index.js:233-254 | The inferred type is one of the supported ones, never the placeholder `value`. It is `bool` exactly for non-numeric `true`/`false`, with that boolean. It is `string` exactly for other non-numeric quoted text, with every quote removed. It is `float` exactly for numeric text with a point and `int` exactly for numeric text without one. `custom` keeps the text. |
| `TypeInference.StrictTypesForNode` | index.js:233-254 | The node takes the inferred type and value; its key and children are unchanged. |
| `TypeInference.InferIntText` | index.js:249-250 | The text of an integer is typed back as that integer. |
| `TypeInference.InferFloatText` | index.js:244-247 | The text a float is written as, with `.0` added when it is whole, is typed back as that float. |
| `TypeInference.InferBoolText` | index.js:235-237 | `true` and `false` are typed back as those booleans. |
| `TypeInference.InferQuotedText` | index.js:238-240 | Quoted text with no inner quote is typed back as a string holding that text. |
| `TypeInference.RemoveCharAppend` | index.js:240 | Deleting a character from two joined texts deletes it from each. |
| `Serializer.SerializeTree` | index.js:102-108 | The text is empty exactly when there are no children, and otherwise ends with a line break. |
| `Serializer.SerializeNode` | index.js:116-142 | Every node is written as whole lines: the text starts with the indentation and the key and ends with a line break. |
| `Serializer.SerializeValueNode` | index.js:149-157 | A value node is written as its indentation, key, `: ` and rendering, ending with a line break. |
| `Serializer.SerializeObjectNode` | index.js:165-173 | An object starts with its line `key {` and ends with its line `}`, each followed by a line break. |
| `Serializer.QuoteRootLines` | index.js:125-132 | The first line gets a closing quote; every later line is indented and quoted on both sides. |
| `Serializer.ValueStringFacts` | index.js:151-155 | The text an integer is printed as reads back as that integer and has no point. A boolean prints as `true` or `false`, and text prints as itself. |
| `Serializer.SerializeTreeAppend` | index.js:102-108 | Writing two runs of children writes the first run, then the second. |
| `Serializer.Serialize` | index.js:364-366 | The text is empty exactly when the root has no children, and otherwise ends with a line break. |
| `Deserializer.ParseTree` | index.js:180-187 | A successful read is a `"tree"` node with the given key and a `null` value. |
| `Deserializer.TreeOf` | index.js:181-186 | The tree node holds exactly the nodes read, or reading stops with the same error. |
| `Deserializer.ParseLines` | index.js:183-185 | The top-level loop reads at most one node per line, and nothing past the last line. |
| `Deserializer.ParseNode` | index.js:195-227 | A successful read consumes at least one line, no more than remain, and appends at most one node. |
| `Deserializer.ParseEntry` | index.js:201-225 | A non-empty line that reads successfully appends exactly one node. |
| `Deserializer.ParseValueLine` | index.js:201-212 | A value line appends exactly one node. |
| `Deserializer.ParseObject` | index.js:213-222 | An object start appends exactly one node and consumes at least its opening and closing lines. |
| `Deserializer.ParseBody` | index.js:219-221 | The object loop stops on a line that still exists. |
| `Deserializer.ParseBodyCloses` | index.js:219-222 | The line the object loop stops on ends with `}`. |
| `Deserializer.Deserialize` | index.js:372-374 | The result is a `"tree"` node named `root`. |
| `Deserializer.ParseNodeEmpty` | index.js:196-200 | An empty line appends nothing and consumes one line. |
| `Deserializer.ParseNodeValue` | index.js:209-212 | A value line that is not a sub-tree appends one node typed from its text and consumes one line. |
| `Deserializer.ParseNodeSubTree` | index.js:205-208 | A sub-tree value line appends the tree read from the embedded document, keyed by the captured key. It consumes the document's lines. |
| `Deserializer.ParseNodeObject` | index.js:213-222 | An object start appends one `"object"` node with the captured key and the children read up to the closing line. It consumes the opening line, the children's lines and the closing line. |
| `Deserializer.ParseNodeUnrecognized` | index.js:223-225 | A non-empty line matching neither pattern is an error naming its index. |
| `Deserializer.ParseLinesStep` | index.js:183-185 | The loop reads the nodes of the current line, then goes on after the lines they consumed. |
| `Deserializer.ParseBodyStep` | index.js:219-221 | The object loop reads the nodes of the current line, then goes on after the lines they consumed. |
| `Deserializer.ParseLinesTurn` | index.js:183-185 | One turn of the `for` loop keeps the invariant tying the children built so far to the final result. |
| `Deserializer.ParseBodyTurn` | index.js:219-221 | One turn of the `while` loop keeps the invariant tying the children built so far to the final result. |
| `Deserializer.BodyReadInTurn` | index.js:219-222 | Nodes read one after another up to a closing line are exactly the children the object loop reads. |
| `Deserializer.LinesReadInTurn` | index.js:183-185 | Nodes read one after another up to the final empty line are exactly the nodes the top-level loop reads. |
| `Deserializer.DeserializeTree` | index.js:180-187 | The `for` loop builds a fresh `"tree"` node whose snapshot is exactly what `ParseTree` describes, or returns that same error. |
| `Deserializer.DeserializeNode` | index.js:195-227 | Appends exactly the nodes `ParseNode` reads to the parent and answers exactly the lines it consumes, or its error. |
| `Deserializer.DeserializeChildren` | index.js:218-222 | The `while` loop appends exactly the children `ParseBody` reads and answers the lines they take, or its error. |
| `RoundTrip.SerializeNodeLines` | index.js:149-173 | A plain node is written as its lines, each followed by a line break. |
| `RoundTrip.SerializeForestLines` | index.js:102-108 | Plain children are written as their lines, one node after another. |
| `RoundTrip.PlainRendering` | index.js:149-156 | The rendering of a plain scalar (a safe integer, a boolean, key-character text, or custom text that is neither numeric, a boolean nor `Infinity`) is made of value characters, is no sub-tree value, and is typed back as the node. |
| `RoundTrip.PlainScalarLine` | index.js:149-156 | The line of a plain scalar, whose int is a safe integer, is a value line that captures its key and rendering and does not close an object. |
| `RoundTrip.OpenLineFacts` | index.js:167 | The opening line of an object is an object start capturing its key. It is not a value line and does not close an object. |
| `RoundTrip.CloseLineFacts` | index.js:171 | The closing line of an object ends with `}`. |
| `RoundTrip.NodeParses` | index.js:195-227 | A plain node whose lines stand at `k` is read back as exactly that node, consuming exactly its lines. |
| `RoundTrip.ForestParsesBody` | index.js:218-222 | Plain children followed by a closing line are read back as exactly those children, consuming exactly their lines. |
| `RoundTrip.ForestParsesLines` | index.js:183-185 | Plain nodes followed by the final empty line are read back as exactly those nodes. |
| `RoundTrip.SerializeDeserialize` | index.js:364-374 | `deserialize(serialize(tree))` is `tree` for a root whose children are plain: objects, safe integers, booleans, key-character strings and custom texts other than `Infinity`. |
| `RoundTrip.SingleLineRoundTrip` | index.js:149-156 | One plain int, bool, string or custom node written at level 0 reads back as a root holding exactly that node. |
| `EmbeddedRoundTrip.EmbeddedTreeRoundTrip` | index.js:117-136 | A root holding one embedded tree, whose children are plain and at least one and whose written text holds no backslash, reads back as exactly that root: the child keeps its key, its type `"tree"` and its children in order. |
| `EmbeddedRoundTrip.SubDocument` | index.js:117-122 | The sub-document of plain children is their lines; the escape passes turn it into the escaped lines, the unescape passes turn those back into it, and its first line without its quotes is a value line or an object start. |
| `EmbeddedRoundTrip.EscapedUnlines` | index.js:119-122 | Escaping non-empty single lines, each followed by a line break, escapes each line on its own: its quotes become `\"` and its break marker goes before its break. The marker is a written `\n`, or nothing when the line ends with `n`. |
| `EmbeddedRoundTrip.EscapedAppend` | index.js:122 | Escaping two joined texts escapes the second as if it followed the first's last character, which is what the lookbehind `(?<!n)` reads. |
| `EmbeddedRoundTrip.EscapedLine` | index.js:119-122 | A non-empty single line and its break escape to the line with quotes escaped, its break marker and the break. |
| `EmbeddedRoundTrip.SerializedOuter` | index.js:123-135 | At the root an embedded tree is written as `key: "` and its first escaped line closed by a quote, each later escaped line indented and quoted on both sides, and a last `""` line. |
| `EmbeddedRoundTrip.FirstOuterLine` | index.js:201-205 | The first written line of an embedded tree is a value line capturing its key and its quoted first escaped line, and that value is a sub-tree value. |
| `EmbeddedRoundTrip.EscapedLineIsSubTreeValue` | index.js:268-276 | A line without backslashes that is a value line or object start once unquoted stays a sub-tree value after its quotes are escaped, a written `\n` is added and it is quoted. |
| `EmbeddedRoundTrip.WrittenBreakRemoved` | index.js:271 | Deleting backslash runs before `n` removes exactly the break marker the escape passes add to a line without backslashes, and nothing else. |
| `EmbeddedRoundTrip.EscapedQuotesRemoved` | index.js:272 | Deleting backslash runs before `"` from a line whose quotes were escaped deletes exactly its quotes. |
| `EmbeddedRoundTrip.CollectOuter` | index.js:337-346 | The collecting loop reads the written lines of an embedded tree up to and including the `""` line, and its text is the escaped lines, each followed by a line break. |
| `EmbeddedRoundTrip.SubTreeText` | index.js:347-357 | Unescaped and stripped of its final line break, the collected text is the sub-document's lines joined by line breaks, and the line count is the written lines plus the `""` line. |
| `EmbeddedRoundTrip.SubDocumentReads` | index.js:180-187 | The lines of plain children, joined by line breaks, read back as exactly those children. |
| `EmbeddedRoundTrip.OuterNodeParses` | index.js:205-208 | The first written line of an embedded tree reads as exactly that tree and consumes all its written lines and the `""` line. |
| `EmbeddedRoundTrip.ReadOuter` | index.js:183-185 | The written lines of an embedded tree followed by the final empty line read as exactly that one tree. |

## Left out

- File reading and printing in the example programs: they only call
  `serialize` and `deserialize`.
- Floating point. A float is an exact decimal, so `parseFloat`'s rounding
  to double precision is not modelled. Neither is the shortest
  round-tripping text JavaScript prints for a double.
- IntToStringRoundTrip: holds for every integer, because the model's ints
  are unbounded. JavaScript's ints are doubles. `parseInt` rounds text
  beyond 2^53 − 1 to a nearby double, and `${i}` prints exponent form
  (`1e+21`) from 10^21 on, which `valueRegex` rejects. So the lemma matches
  index.js only for safe integers (`IsSafeInteger`); the round trip in
  `RoundTrip` is bounded that way.
- InferIntText: the same gap as IntToStringRoundTrip. Beyond 2^53 − 1,
  index.js types the text as a nearby int, not the same one.
- ValueStringFacts: its integer clause has the same gap as
  IntToStringRoundTrip.
- DecimalToString: prints every float in positional notation. JavaScript
  prints exponent form below 10^-6 and from 10^21 on.
- WholeDecimalRoundTrip: exact on decimals. JavaScript's `parseFloat` rounds
  to a double, so it holds there only for floats a double represents.
- InferFloatText: the same gap as DecimalToString and WholeDecimalRoundTrip.
- Numbers.ScanLiteral: recognises only plain decimal text with an
  optional `-`. A leading `+` is not recognised. `isNaN` and `Number` also
  accept exponents, hexadecimal, `Infinity` and other forms, which the
  model types as `custom` (index.js types `Infinity` as an int holding
  NaN).
- Aliasing of child nodes. Children are held as values, so a node changed
  through a reference kept elsewhere is not seen by its parent.
- The order of `push` for an object. `_deserializeNode` pushes an object
  into its parent before reading the object's children. The model pushes
  the finished object after reading them. Nothing reads the parent in
  between, and an error stops the whole read either way.
- Exceptions. A throw becomes an error result: an unrecognised line,
  `undefined.endsWith` past the end of an unclosed object, and `setType`
  with an unsupported name (`false`).
- TypeInference.StrictTypesForNode: requires a node holding text, which
  is what `_deserializeNode` always creates.
- `DefTreeNode` values that are themselves nodes (allowed by the JSDoc type
  at index.js:25) are not part of the `Value` type.
- Serializer.SerializeTree: its ensures states only that the text is
  empty or ends with a line break. The exact lines are stated by
  `RoundTrip.SerializeNodeLines` and `RoundTrip.SerializeForestLines` for
  plain nodes.
- A general `deserialize(serialize(tree)) == tree` does not hold, so it is
  not stated. String typing drops every quote, and a quoted value that
  looks like a line is read as a sub-tree. The fourth escape pass leaves a
  line break directly after `n` without a written `\n`. On text without
  backslashes that loses nothing (`EscapeRoundTrip`). After a line ending
  with a backslash and `n`, though, the third pass has doubled the
  backslash, and the first unescape pass takes that end and the break for
  a quoted line break. The round trip is proved for plain trees and for
  a root holding one embedded tree of plain children; floats are outside
  it.
- EmbeddedTreeRoundTrip: covers one embedded tree directly under the
  root, with plain children and at least one of them. Deeper nesting,
  several embedded siblings, embedded trees inside objects and empty
  embedded trees are not proved. It also requires the written
  sub-document to hold no backslash, for the reason given under
  EscapeRoundTrip.
- EscapeRoundTrip: requires text without backslashes. With backslashes the
  escape and unescape passes do not always undo each other, as a line
  ending with a backslash and `n` shows; which such texts still come back
  is not characterised.
- Regular expressions in general: only the two line patterns and the
  fixed replace passes are written out.
