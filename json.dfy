/**
 * JSON values as the backend (Python dicts read by json.load) and the front end
 * (JavaScript objects) see them. Numbers are integers only.
 */
module Json {
  import opened Wrappers
  import opened Text

  datatype Json =
    | JNull
    | JBool(b: bool)
    | JNum(n: int)
    | JStr(s: string)
    | JArr(items: seq<Json>)
    | JObj(fields: map<string, Json>)

  /** A JSON object: one book record, a request body, a stored file's content. */
  type Record = map<string, Json>

  /** Python truthiness: None, False, 0, "", [] and {} are false. */
  predicate PyTruthy(j: Json) {
    match j
    case JNull => false
    case JBool(b) => b
    case JNum(n) => n != 0
    case JStr(s) => s != []
    case JArr(xs) => xs != []
    case JObj(m) => m != map[]
  }

  /** JavaScript truthiness: null, false, 0 and "" are false; every array and object is true. */
  predicate JsTruthy(j: Json) {
    match j
    case JNull => false
    case JBool(b) => b
    case JNum(n) => n != 0
    case JStr(s) => s != []
    case JArr(_) => true
    case JObj(_) => true
  }

  /** JavaScript's `a || b`, where a missing property reads as undefined (falsy). */
  function JsOr(a: Option<Json>, b: Json): Json {
    if a.Some? && JsTruthy(a.value) then a.value else b
  }

  /** Property lookup: None stands for Python's missing key and JavaScript's undefined. */
  function Get(r: Record, k: string): Option<Json> {
    if k in r then Some(r[k]) else None
  }

  /** JavaScript's `x.length`: defined for arrays and strings, undefined otherwise. */
  function JsLength(j: Json): Option<nat> {
    match j
    case JArr(xs) => Some(|xs|)
    case JStr(s) => Some(|s|)
    case _ => None
  }
}
