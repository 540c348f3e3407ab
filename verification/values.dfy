/** The untyped value tree Go builds when it decodes JSON or YAML into an
    `interface{}`: null, booleans, numbers, strings, arrays and objects
    keyed by strings. Numbers stay abstract (Go decodes JSON numbers to
    float64, and no arithmetic is ever done on them), so a number is kept
    as its literal text. */
module Values {

  datatype Value =
    | Null
    | Bool(b: bool)
    | Number(literal: string)
    | Str(s: string)
    | Array(items: seq<Value>)
    | Object(fields: map<string, Value>)
  {
    /** Neither an object nor an array. */
    predicate IsScalar() {
      !Object? && !Array?
    }
  }
}
