/** The already-parsed `protocol.json` tree (a Newtonsoft `JToken`), and the
    token operations the generator applies to it. Object members keep their
    document order: the generator depends on it. */
module JsonTree {
  import opened Results
  import opened AssocList

  datatype Json = JStr(s: string) | JArr(items: seq<Json>) | JObj(props: AList<Json>)

  /** The exceptions a walk over the tree can raise. */
  datatype SchemaError =
    | InvalidCast        // a cast to JProperty or JArray of a token of another kind
    | IndexOutOfRange    // `array[i]` or `ToArray()[i]` past the end
    | NullReference      // a member of a missing (null) token
    | InvalidKey         // a string indexer on an array or a plain value
    | DuplicateKey(key: string)  // `Dictionary.Add` of a key already present

  /** Compact JSON text of a token. */
  function Render(j: Json): string
  {
    match j
    case JStr(s) => "\"" + s + "\""
    case JArr(items) =>
      "[" + Join(seq(|items|, i requires 0 <= i < |items| => Render(items[i]))) + "]"
    case JObj(props) =>
      "{" + Join(seq(|props|, i requires 0 <= i < |props| => "\"" + props[i].0 + "\":" + Render(props[i].1))) + "}"
  }

  function Join(parts: seq<string>): string
  {
    if |parts| == 0 then ""
    else if |parts| == 1 then parts[0]
    else parts[0] + "," + Join(parts[1..])
  }

  /** `JToken.ToString()`: a string value as it is, anything else as JSON text. */
  function Text(j: Json): string
  {
    match j
    case JStr(s) => s
    case _ => Render(j)
  }

  /** `token[key]`: the member of an object, `None` (null) when absent; an
      array or a plain value throws. */
  function Member(j: Json, key: string): (r: Result<Option<Json>, SchemaError>)
    ensures r.Ok? <==> j.JObj?
    ensures r.Ok? ==> r.value == Lookup(j.props, key)
  {
    match j
    case JObj(props) => Ok(Lookup(props, key))
    case _ => Failure(InvalidKey)
  }

  /** `((JArray)token)[i]`. */
  function At(j: Json, i: nat): (r: Result<Json, SchemaError>)
    ensures r.Ok? <==> j.JArr? && i < |j.items|
    ensures r.Ok? ==> r.value == j.items[i]
  {
    match j
    case JArr(items) => if i < |items| then Ok(items[i]) else Failure(IndexOutOfRange)
    case _ => Failure(InvalidCast)
  }

  /** `token.Children()` with every child cast to `JProperty`: the members of
      an object; an array's elements fail the cast; a plain value has none. */
  function PropertyChildren(j: Json): (r: Result<AList<Json>, SchemaError>)
    ensures j.JObj? ==> r == Ok(j.props)
    ensures j.JStr? ==> r == Ok([])
    ensures j.JArr? ==> (r.Ok? <==> j.items == [])
  {
    match j
    case JObj(props) => Ok(props)
    case JArr(items) => if items == [] then Ok([]) else Failure(InvalidCast)
    case JStr(_) => Ok([])
  }

  /** `token.Children()` where every child must itself be an element token:
      the elements of an array; the children of an object are properties,
      and any use of them as field descriptors fails; a plain value has none. */
  function ItemChildren(j: Json): (r: Result<seq<Json>, SchemaError>)
    ensures j.JArr? ==> r == Ok(j.items)
    ensures j.JStr? ==> r == Ok([])
    ensures j.JObj? ==> (r.Ok? <==> j.props == [])
  {
    match j
    case JArr(items) => Ok(items)
    case JObj(props) => if props == [] then Ok([]) else Failure(InvalidCast)
    case JStr(_) => Ok([])
  }
}
