/** The event handlers as the objects they are: event methods that update the key, the stack and the facts. Each is
    proved to take the step of the automaton in JsonEvents.dfy. */
module JsonHandlers {
  import opened Values
  import opened JsonEvents

  class EventHandler {
    const dialect: Dialect
    var initialized: bool
    var key: string
    var stack: seq<Frame>
    var facts: map<string, Value>

    constructor (dialect: Dialect, facts: map<string, Value>)
      ensures this.dialect == dialect && Contents() == Initial(facts)
    {
      this.dialect := dialect;
      initialized, key, stack, this.facts := false, "", [], facts;
    }

    ghost function Contents(): Handler
      reads this
    {
      Handler(initialized, key, stack, facts)
    }

    /** What an event came to, seen from outside. */
    ghost function Outcome(thrown: Option<Error>): Fed
      reads this
    {
      if thrown.Some? then Thrown(thrown.value, facts) else Ok(Contents())
    }

    method OnNull() returns (thrown: Option<Error>)
      modifies this
      ensures Outcome(thrown) == Step(dialect, old(Contents()), Null)
    {
      if !initialized {
        return Some(NotAnObject);
      }
      key := "";
      return None;
    }

    method OnBool(flag: bool) returns (thrown: Option<Error>)
      modifies this
      ensures Outcome(thrown) == Step(dialect, old(Contents()), Bool(flag))
    {
      thrown := Add(BooleanValue(flag));
    }

    method OnInteger(number: int) returns (thrown: Option<Error>)
      modifies this
      ensures Outcome(thrown) == Step(dialect, old(Contents()), Integer(number))
    {
      thrown := Add(IntegerValue(Wrapped(number)));
    }

    method OnDouble(double: real) returns (thrown: Option<Error>)
      modifies this
      ensures Outcome(thrown) == Step(dialect, old(Contents()), Double(double))
    {
      thrown := Add(DoubleValue(double));
    }

    method OnString(text: string) returns (thrown: Option<Error>)
      modifies this
      ensures Outcome(thrown) == Step(dialect, old(Contents()), String(text))
    {
      if (stack == [] || stack[|stack| - 1].value.MapValue?) && key == "" {
        if !initialized {
          return Some(NotAnObject);
        }
        key := CText(text);
        return None;
      }
      thrown := Add(TextValue(dialect, key, text));
    }

    method OnStartObject() returns (thrown: Option<Error>)
      modifies this
      ensures Outcome(thrown) == Step(dialect, old(Contents()), StartObject)
    {
      if !initialized {
        initialized := true;
        return None;
      }
      stack := stack + [Frame(key, MapValue(map[]))];
      key := "";
      return None;
    }

    method OnEndObject() returns (thrown: Option<Error>)
      modifies this
      ensures Outcome(thrown) == Step(dialect, old(Contents()), EndObject)
    {
      if stack == [] {
        return None;
      }
      thrown := Close();
    }

    method OnStartArray() returns (thrown: Option<Error>)
      modifies this
      ensures Outcome(thrown) == Step(dialect, old(Contents()), StartArray)
    {
      if !initialized {
        return Some(NotAnObject);
      }
      stack := stack + [Frame(key, ArrayValue([]))];
      key := "";
      return None;
    }

    /** Every EndArray closes a container that StartArray pushed. */
    method OnEndArray() returns (thrown: Option<Error>)
      requires stack != []
      modifies this
      ensures Outcome(thrown) == Step(dialect, old(Contents()), EndArray)
    {
      thrown := Close();
    }

    /** Pop the innermost container, restore its key and add it. */
    method Close() returns (thrown: Option<Error>)
      requires stack != []
      modifies this
      ensures Outcome(thrown) == Pop(dialect, old(Contents()))
    {
      var top := stack[|stack| - 1];
      stack := stack[..|stack| - 1];
      key := top.key;
      thrown := Add(top.value);
    }

    /** Store a finished value: a top-level member, an element or an entry of the innermost container. */
    method Add(value: Value) returns (thrown: Option<Error>)
      modifies this
      ensures Outcome(thrown) == AddValue(dialect, old(Contents()), value)
    {
      if !initialized {
        return Some(NotAnObject);
      }
      if stack == [] {
        if key == "" {
          return Some(EmptyKey);
        }
        facts := Stored(dialect, facts, key, value);
        key := "";
        return None;
      }
      var last := |stack| - 1;
      match stack[last].value
      case ArrayValue(elements) =>
        stack := stack[last := stack[last].(value := ArrayValue(elements + [value]))];
        return None;
      case MapValue(entries) =>
        if key == "" {
          return Some(EmptyKey);
        }
        stack := stack[last := stack[last].(value := MapValue(Emplaced(entries, key, value)))];
        key := "";
        return None;
      case _ =>
        return None;
    }
  }
}
