/**
 * The node of a Defold collection tree (`DefTreeNode`, index.js:13-94).
 *
 * A node has a key, a type name, a scalar value and an ordered list of
 * children. The type name is a free string: the constructor stores any
 * name (the deserializer uses the placeholder `"value"` for a moment), and
 * only `SetType` checks it against the seven supported names. For a
 * `"tree"` node the value accessor answers with the children.
 *
 * Children are held as `Node` values, which are snapshots of the nodes the
 * parent owns.
 */
module TreeModel {
  import opened Numbers

  /** `supportedTypes`, index.js:3-11. */
  const SupportedTypes: seq<string> := ["string", "int", "float", "bool", "custom", "object", "tree"]

  /**
   * The scalar a node stores: JavaScript `null`, a string, an integer, a
   * float (an exact decimal), a boolean, or `NaN` (what `parseInt` gives
   * for blank text).
   */
  datatype Value = Null | Text(text: string) | Int(i: int) | Float(d: Decimal) | Bool(b: bool) | NaN

  /** A node as a value: the four fields of `DefTreeNode`. */
  datatype Node = Node(key: string, kind: string, value: Value, nodes: seq<Node>)

  /** What `getValue` answers: the children for a tree, the scalar otherwise. */
  datatype Payload = Children(children: seq<Node>) | Scalar(scalar: Value)

  class DefTreeNode {
    var key: string
    /** `_type` in index.js. */
    var kind: string
    var value: Value
    var nodes: seq<Node>

    constructor (key: string, kind: string, value: Value)
      ensures this.key == key && this.kind == kind && this.value == value
      ensures nodes == []
    {
      this.key := key;
      this.kind := kind;
      this.value := value;
      this.nodes := [];
    }

    method GetKey() returns (k: string)
      ensures k == key
    {
      k := key;
    }

    method SetKey(k: string)
      modifies this`key
      ensures key == k
      ensures kind == old(kind) && value == old(value) && nodes == old(nodes)
    {
      key := k;
    }

    method GetType() returns (t: string)
      ensures t == kind
    {
      t := kind;
    }

    /** Fails, leaving the type as it was, unless `t` is one of the supported names. */
    method SetType(t: string) returns (ok: bool)
      modifies this`kind
      ensures ok <==> t in SupportedTypes
      ensures kind == (if ok then t else old(kind))
      ensures key == old(key) && value == old(value) && nodes == old(nodes)
    {
      if t !in SupportedTypes {
        return false;
      }
      kind := t;
      return true;
    }

    /** The children for a `"tree"` node, the stored scalar for every other type. */
    function GetValue(): (p: Payload)
      reads this
      ensures kind == "tree" ==> p == Children(nodes)
      ensures kind != "tree" ==> p == Scalar(value)
    {
      if kind == "tree" then Children(nodes) else Scalar(value)
    }

    /** Stores `v` as it is: no check against the type. */
    method SetValue(v: Value)
      modifies this`value
      ensures value == v
      ensures key == old(key) && kind == old(kind) && nodes == old(nodes)
    {
      value := v;
    }

    method GetNodes() returns (ns: seq<Node>)
      ensures ns == nodes
    {
      ns := nodes;
    }

    /** `getNodes().push(n)`: appends one child at the end. */
    method PushNode(n: Node)
      modifies this`nodes
      ensures nodes == old(nodes) + [n]
      ensures key == old(key) && kind == old(kind) && value == old(value)
    {
      nodes := nodes + [n];
    }

    /** The node and its children as a value. */
    function Snapshot(): Node
      reads this
    {
      Node(key, kind, value, nodes)
    }
  }
}
