/** The parts of an HTTP exchange the client and the server look at. */
module Http {

  /** A JSON document, as `jsonify` produces it and `request.get_json()` yields it. */
  datatype Json =
    | JNull
    | JBool(b: bool)
    | JNumber(n: int)
    | JString(s: string)
    | JArray(items: seq<Json>)
    | JObject(fields: map<string, Json>)

  datatype Body = JsonBody(value: Json) | TextBody(text: string)

  /** Status code, the headers set explicitly by the handler, and the body. */
  datatype Response = Response(status: int, headers: map<string, string>, body: Body)

  const StatusOk := 200
  const StatusBadRequest := 400
  const StatusUnauthorized := 401
  const StatusForbidden := 403
  const StatusInternalServerError := 500
}
