/**
 * The configuration tree that the blacklist engine reads: a dictionary, an
 * array or a scalar. This stands for the read-only accessor surface of the
 * generic configuration object (is-dict, is-array, field names, string value
 * of a field or element, child of a field or element, element count).
 */
module ConfigTree {
  import opened Wrappers

  /** A configuration node.
      Dict keeps its fields as an association list; a lookup sees the first
      field with a given name.
      Scalar(Some(s)) is a leaf whose value can be read as the string s
      (strings, and numbers or booleans rendered as text);
      Scalar(None) is a leaf that cannot be read as a string (a null value). */
  datatype Node =
    | Dict(fields: seq<(string, Node)>)
    | Arr(items: seq<Node>)
    | Scalar(text: Option<string>)
  {
    /** True when the node is itself a configuration object, i.e. when the
        accessor can hand it out as a child. */
    predicate IsContainer() {
      Dict? || Arr?
    }
  }

  /** The field names of a dictionary, in field order. */
  function FieldNames(fields: seq<(string, Node)>): (names: seq<string>)
    ensures |names| == |fields|
    ensures forall i :: 0 <= i < |fields| ==> names[i] == fields[i].0
  {
    if fields == [] then [] else [fields[0].0] + FieldNames(fields[1..])
  }

  /** Position of the first field named `key`, if there is one. */
  function IndexOf(fields: seq<(string, Node)>, key: string): (r: Option<nat>)
    ensures r.Some? ==> r.value < |fields| && fields[r.value].0 == key
    ensures r.Some? ==> forall j :: 0 <= j < r.value ==> fields[j].0 != key
    ensures r.None? <==> forall j :: 0 <= j < |fields| ==> fields[j].0 != key
  {
    if fields == [] then None
    else if fields[0].0 == key then Some(0)
    else match IndexOf(fields[1..], key)
      case None => None
      case Some(i) => Some(i + 1)
  }

  /** The string value of a node, when it has one: the accessor's
      string read succeeds only on a string-convertible scalar. */
  function StringOf(n: Node): (r: Option<string>)
    ensures r.Some? <==> n.Scalar? && n.text.Some?
    ensures r.Some? ==> r.value == n.text.value
  {
    if n.Scalar? then n.text else None
  }
}
