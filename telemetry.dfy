/** Values shared by both collectors: decoded JSON, HTTP responses and the JSON parser. */
module Telemetry {
  import opened Wrappers

  /** A decoded JSON value as Python's json module yields it. JSON integers and
      floats are both numbers (reals); JSON null and a missing key both read as
      Python's None, so a missing key is modelled as JNull. */
  datatype Json =
    | JNull
    | JBool(b: bool)
    | JNum(n: real)
    | JStr(s: string)
    | JArr(items: seq<Json>)
    | JObj(fields: map<string, Json>)

  /** The foreign JSON decoder (json.loads, Response.json): the value the text
      denotes, or None where it raises JSONDecodeError. */
  type Parser = string -> Option<Json>

  /** The result of requests.get: a RequestException (connection error,
      timeout), or a delivered response with its status code and decoded text. */
  datatype Response = Unreachable | Delivered(status: int, body: string)

  /** Response.raise_for_status raises for client (4xx) and server (5xx) errors. */
  predicate IsHttpError(status: int)
  {
    400 <= status < 600
  }

  /** dict.get(key, default) on a decoded JSON object. */
  function Get(fields: map<string, Json>, key: string, default: Json): Json
  {
    if key in fields then fields[key] else default
  }
}
