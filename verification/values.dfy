/** The JSON-like values the transformer hands to the YAML serialiser.

    The source builds its result out of `map[string]interface{}`, `map[uint]interface{}`
    and slices; `Value` is the closed set of shapes those take. Numeric-keyed maps
    (the responses map) get their own constructor, because YAML renders their keys
    differently from string keys. */
module Values {

  datatype Option<+T> = None | Some(value: T)

  /** The XML metadata a schema may carry. Only its `name` is inspected by the
      transformer; `rest` stands for the remaining fields of the struct, which the
      transformer forwards without looking at them. */
  datatype XmlObject = XmlObject(name: string, rest: map<string, Value>)

  datatype Value =
    | Str(s: string)
    | Num(n: int)
    | Bool(b: bool)
    | List(items: seq<Value>)
    | Map(fields: map<string, Value>)
    | IntMap(entries: map<nat, Value>)
    | Xml(obj: XmlObject)

  /** A slice of strings as a list value, element by element. */
  function Strs(xs: seq<string>): (r: seq<Value>)
    ensures |r| == |xs|
    ensures forall i :: 0 <= i < |xs| ==> r[i] == Str(xs[i])
  {
    seq(|xs|, i requires 0 <= i < |xs| => Str(xs[i]))
  }
}
