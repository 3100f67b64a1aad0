/**
 The generic key/value document that an API object is converted to before
 the immutability comparison (Kubernetes' "unstructured" form), the deep
 structural equality used to compare two such documents, and key removal.
 */
module Unstructured {

  /** One node of a generic document: a JSON-like value. */
  datatype Value =
    | Null
    | Bool(b: bool)
    | Int(i: int)
    | Str(s: string)
    | List(items: seq<Value>)
    | Object(fields: map<string, Value>)

  /** A document is an object's field map. */
  type Document = map<string, Value>

  /** Deep structural equality in the manner of `reflect.DeepEqual`: scalars
      compare by value, lists element by element, objects by key set and then
      key by key, ignoring key order. It holds exactly when the values are equal. */
  function DeepEqual(a: Value, b: Value): (equal: bool)
    ensures equal <==> a == b
  {
    match a
    case List(xs) =>
      b.List? && |xs| == |b.items| && forall i :: 0 <= i < |xs| ==> DeepEqual(xs[i], b.items[i])
    case Object(m) =>
      b.Object? && m.Keys == b.fields.Keys && forall k :: k in m ==> DeepEqual(m[k], b.fields[k])
    case _ => a == b
  }

  /** Go's `delete(m, key)`: drops `key` if present and keeps every other entry. */
  function Delete(m: Document, key: string): (r: Document)
    ensures key !in r
    ensures forall k :: k != key ==> (k in r <==> k in m)
    ensures forall k :: k in r ==> r[k] == m[k]
  {
    m - {key}
  }
}
