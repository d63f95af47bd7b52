/** What a service's answers and inputs hold, as decoded from JSON or built in memory. */
module Answers {
  import opened Decimals

  /** An integer, a floating-point number (by its truncation and its text) and any other scalar (by its
      text) are told apart, as the values they stand for are. */
  datatype Json =
    | Null
    | Int(n: int)
    | Float(truncated: int, text: string)
    | Scalar(text: string)
    | Text(s: string)
    | List(items: seq<Json>)
    | Object(members: map<string, Json>)

  /** How a value prints where two are not compared by structure; a list or an object prints as no
      scalar does. */
  function Printed(v: Json): (bool, string) {
    match v
    case Null => (true, "<nil>")
    case Int(n) => (true, Itoa(n))
    case Float(_, text) => (true, text)
    case Scalar(text) => (true, text)
    case Text(s) => (true, s)
    case _ => (false, "")
  }
}
