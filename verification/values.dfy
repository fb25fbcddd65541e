/** Option, and the loosely typed values that arrive in the extracted JSON drafts. */
module Wrappers {
  datatype Option<+T> = None | Some(value: T)
}

module Values {
  import opened Text

  /**
   * A JSON scalar as the extraction step hands it over: a draft field may be missing
   * (null), a number, or a string.
   */
  datatype Json = JNull | JInt(i: int) | JStr(s: string)

  /** Python truthiness: None, 0 and "" are falsy. */
  predicate Truthy(v: Json) {
    match v
    case JNull => false
    case JInt(i) => i != 0
    case JStr(s) => s != ""
  }

  /** Python's str(v). */
  function PyStr(v: Json): string {
    match v
    case JNull => "None"
    case JInt(i) => IntToString(i)
    case JStr(s) => s
  }
}
