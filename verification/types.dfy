/**
 Values shared by every part of the client model: JSON values as the node
 sends and receives them, the error kinds a caller can see, the tagged union
 that replaces Python's "store the exception object as a value", and the
 `(method, params)` pair that the transport executes.
 */
module Types {

  /** A value that may be absent; Python's `None` where the source uses it. */
  datatype Option<+T> = None | Some(value: T)

  /** A parsed JSON value (floating-point numbers are not modelled). */
  datatype Json =
    | JNull
    | JBool(b: bool)
    | JNumber(n: int)
    | JString(s: string)
    | JArray(items: seq<Json>)
    | JObject(fields: map<string, Json>)

  /** Every failure a caller of the client can observe. */
  datatype Error =
      /** whatever the transport `_make_request` raised, passed on verbatim */
    | TransportError(detail: string)
      /** `ValueError("Timeout waiting for <id>")` from `make_request` */
    | RequestTimeout(id: nat)
      /** `KeyError` from `response[key]` on an object without that key */
    | MissingKey(key: string)
      /** `TypeError` from `response[key]` on a value that is not an object */
    | NotSubscriptable(key: string)
      /** `ValueError`/`TypeError` from `int(value, 16)` */
    | NotHex(value: Json)
      /** `ValueError(message)` raised by a polling waiter */
    | DeadlineExceeded(message: string)

  /** Success with a value, or the error that was raised instead. */
  datatype Result<+T> = Success(value: T) | Failure(error: Error)

  /** The outcome of one request: the response, or the exception it raised. */
  type Outcome = Result<Json>

  /** What the transport is asked to execute: a JSON-RPC method name and its positional parameters. */
  datatype Call = Call(name: string, params: seq<Json>)

  /** `j[key]` on a parsed JSON value. */
  function Lookup(j: Json, key: string): (r: Outcome)
    ensures r.Success? <==> j.JObject? && key in j.fields
    ensures r.Success? ==> r.value == j.fields[key]
  {
    match j
    case JObject(fields) =>
      if key in fields then Success(fields[key]) else Failure(MissingKey(key))
    case _ => Failure(NotSubscriptable(key))
  }
}
