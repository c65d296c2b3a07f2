/** Structured fact values, as native resolvers and external fact files build them. */
module Values {

  /** A pointer that may be null, or a lookup that may miss. */
  datatype Option<+T> = None | Some(value: T)

  datatype Value =
    | StringValue(text: string)
    | IntegerValue(number: int)
    | BooleanValue(flag: bool)
    | DoubleValue(double: real)
    | ArrayValue(elements: seq<Value>)
    | MapValue(entries: map<string, Value>)

  /** What a find in a map of values gives: null when the name is absent. */
  function Lookup(facts: map<string, Value>, name: string): Option<Value> {
    if name in facts then Some(facts[name]) else None
  }

  /** Store a value under a name, or drop the name when the value is null. */
  function Assign(facts: map<string, Value>, name: string, value: Option<Value>): map<string, Value> {
    match value
    case None => facts - {name}
    case Some(v) => facts[name := v]
  }
}
