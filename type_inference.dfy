/**
 * `_strictTypesForNode`, index.js:233-254: the type a value read from a
 * line gets, decided from its text alone.
 *
 * Text that is not a number is a boolean when it is `true` or `false`, a
 * string when it starts and ends with a double quote (every double quote
 * is then dropped), and `custom` otherwise. Text that is a number is a
 * float when it contains a point and an int otherwise.
 */
module TypeInference {
  import opened Wrappers
  import opened Strings
  import opened Numbers
  import opened TreeModel

  /** A type name together with the value stored under it. */
  datatype Typed = Typed(kind: string, value: Value)

  /** The type and value `_strictTypesForNode` gives to a node holding `text`. */
  function InferType(text: string): Typed {
    if !IsNumericText(text) then
      if text == "true" || text == "false" then Typed("bool", Bool(text == "true"))
      else if StartsWith(text, "\"") && EndsWith(text, "\"") then Typed("string", Text(RemoveChar(text, '"')))
      else Typed("custom", Text(text))
    else if '.' in text then
      Typed("float", match ParseFloatText(text) case Some(d) => Float(d) case None => NaN)
    else
      Typed("int", match ParseIntText(text) case Some(i) => Int(i) case None => NaN)
  }

  /**
   * What each inferred type means: every text gets one of the supported
   * types other than `value`, `object` and `tree`; which one is decided by
   * whether the text is numeric, contains a point, is a boolean literal or
   * is wrapped in double quotes.
   */
  lemma InferTypeClassifies(text: string)
    ensures var r := InferType(text);
      && r.kind in SupportedTypes
      && r.kind != "value" && r.kind != "object" && r.kind != "tree"
      && (r.kind == "bool" <==> !IsNumericText(text) && (text == "true" || text == "false"))
      && (r.kind == "bool" ==> r.value == Bool(text == "true"))
      && (r.kind == "string" <==>
          !IsNumericText(text) && text != "true" && text != "false" && StartsWith(text, "\"") && EndsWith(text, "\""))
      && (r.kind == "string" ==> r.value == Text(RemoveChar(text, '"')))
      && (r.kind == "float" <==> IsNumericText(text) && '.' in text)
      && (r.kind == "int" <==> IsNumericText(text) && '.' !in text)
      && (r.kind == "custom" ==> r.value == Text(text) && !IsNumericText(text))
  {
  }

  /**
   * `_strictTypesForNode` on a node that holds text: the node takes the
   * inferred type and value through `setType` and `setValue`; its key and
   * children stay as they were.
   */
  method StrictTypesForNode(node: DefTreeNode)
    requires node.value.Text?
    modifies node
    ensures node.kind == InferType(old(node.value.text)).kind
    ensures node.value == InferType(old(node.value.text)).value
    ensures node.key == old(node.key) && node.nodes == old(node.nodes)
  {
    var text := node.value.text;
    var typed := InferType(text);
    var ok := node.SetType(typed.kind);
    if typed.kind != "custom" {
      node.SetValue(typed.value);
    }
  }

  /** The text of an integer is typed back as that integer. */
  lemma InferIntText(i: int)
    ensures InferType(IntToString(i)) == Typed("int", Int(i))
  {
    IntToStringRoundTrip(i);
  }

  /**
   * The text the serializer writes for a float, with `.0` added when it is
   * whole, is typed back as that float.
   */
  lemma InferFloatText(d: Decimal)
    ensures var t := if IsWholeDecimal(d) then DecimalToString(d) + ".0" else DecimalToString(d);
      InferType(t) == Typed("float", Float(Normalize(d)))
  {
    var s := DecimalToString(d);
    if IsWholeDecimal(d) {
      WholeDecimalRoundTrip(d);
      assert (s + ".0")[|s|] == '.';
      InferFloatOf(s + ".0", Normalize(d));
    } else {
      InferFloatOf(s, Normalize(d));
    }
  }

  /** Text with a point that reads as a float is typed as that float. */
  lemma InferFloatOf(t: string, x: Decimal)
    requires ParseFloatText(t) == Some(x) && '.' in t
    ensures InferType(t) == Typed("float", Float(x))
  {
  }

  /** The text `true` or `false` is typed back as that boolean. */
  lemma InferBoolText(b: bool)
    ensures InferType(if b then "true" else "false") == Typed("bool", Bool(b))
  {
    var t := if b then "true" else "false";
    assert t[0] == (if b then 't' else 'f') && t[|t| - 1] == 'e';
    NotNumericText(t);
  }

  /** Quoted text with no quote inside is typed back as a string with that text. */
  lemma InferQuotedText(s: string)
    requires '"' !in s
    ensures InferType("\"" + s + "\"") == Typed("string", Text(s))
  {
    var t := "\"" + s + "\"";
    assert t[0] == '"' && t[|t| - 1] == '"';
    NotNumericText(t);
    assert t != "true" && t != "false" by { assert t[0] == '"'; }
    assert t[..1] == "\"" && t[|t| - 1..] == "\"";
    RemoveQuotes(s);
  }

  lemma RemoveQuotes(s: string)
    requires '"' !in s
    ensures RemoveChar("\"" + s + "\"", '"') == s
  {
    var t := "\"" + s + "\"";
    assert t[1..] == s + "\"";
    RemoveCharAppend(s, "\"", '"');
    assert RemoveChar("\"", '"') == "";
    assert s + "" == s;
  }

  lemma {:induction false} RemoveCharAppend(a: string, b: string, c: char)
    ensures RemoveChar(a + b, c) == RemoveChar(a, c) + RemoveChar(b, c)
  {
    if a == [] {
      assert a + b == b;
    } else {
      assert (a + b)[1..] == a[1..] + b;
      RemoveCharAppend(a[1..], b, c);
    }
  }
}
