/** JSON-RPC identifiers and response envelopes (src/mcp/rpc.rs). */
module Rpc {
  import opened Prelude
  import opened Json

  datatype RequestId = StringId(s: string) | IntegerId(n: int) {
    /** Integer ids are 64-bit. */
    predicate Valid() {
      IntegerId? ==> I64_MIN <= n <= I64_MAX
    }
  }

  function ValueToRequestId(v: Json): (r: Option<RequestId>)
    ensures r.Some? ==> r.value.Valid()
  {
    if AsStr(v).Some? then Some(StringId(AsStr(v).value))
    else if AsI64(v).Some? then Some(IntegerId(AsI64(v).value))
    else None
  }

  function RequestIdToValue(id: RequestId): Json {
    match id
    case StringId(s) => Str(s)
    case IntegerId(n) => Integer(n)
  }

  /** The two conversions are inverse: an id survives the trip through a response, and a JSON value
      that is an id is the value that comes back. */
  lemma RequestIdRoundTrip(id: RequestId, v: Json)
    ensures id.Valid() ==> ValueToRequestId(RequestIdToValue(id)) == Some(id)
    ensures ValueToRequestId(v).Some? ==> RequestIdToValue(ValueToRequestId(v).value) == v
    ensures id.Valid() ==> (ValueToRequestId(v) == Some(id) <==> v == RequestIdToValue(id))
  {
  }

  function UsableId(id: Option<Json>): Option<RequestId> {
    if id.Some? then ValueToRequestId(id.value) else None
  }

  /** A result envelope; with a usable id the SDK keeps only the members of an object result. */
  function JsonRpcResult(id: Option<Json>, result: Json): Json {
    var requestId := UsableId(id);
    if requestId.Some? then
      Object(map["jsonrpc" := Str("2.0"),
                 "id" := RequestIdToValue(requestId.value),
                 "result" := if result.Object? then result else Object(map[])])
    else
      Object(map["jsonrpc" := Str("2.0"), "id" := if id.Some? then id.value else Null, "result" := result])
  }

  function ErrorObject(code: int, message: string, data: Option<Json>): Json {
    var bare := map["code" := Integer(code), "message" := Str(message)];
    Object(if data.Some? then bare["data" := data.value] else bare)
  }

  /** An error envelope; without a usable id the id is null. */
  function JsonRpcErrorWithData(id: Option<Json>, code: int, message: string, data: Option<Json>): Json {
    var requestId := UsableId(id);
    Object(map["jsonrpc" := Str("2.0"),
               "id" := if requestId.Some? then RequestIdToValue(requestId.value) else Null,
               "error" := ErrorObject(code, message, data)])
  }

  function InvalidRequest(id: Option<Json>): Json {
    JsonRpcErrorWithData(id, -32600, "Invalid Request", None)
  }

  function InvalidParams(id: Option<Json>): Json {
    JsonRpcErrorWithData(id, -32602, "Invalid params", None)
  }

  function ParseError(id: Option<Json>): Json {
    JsonRpcErrorWithData(id, -32700, "Parse error", None)
  }

  /** A response object of section 5 of JSON-RPC 2.0: the version, an id, and either a result or an
      error but not both. */
  predicate IsResponse(v: Json) {
    && Get(v, "jsonrpc") == Some(Str("2.0"))
    && Get(v, "id").Some?
    && (Get(v, "result").Some? <==> Get(v, "error").None?)
  }

  /** Envelopes built from an absent or usable id are response objects that carry it. */
  lemma EnvelopesAreResponses(id: Option<Json>, result: Json, code: int, message: string, data: Option<Json>)
    requires id.Some? ==> ValueToRequestId(id.value).Some?
    ensures IsResponse(JsonRpcResult(id, result)) && IsResponse(JsonRpcErrorWithData(id, code, message, data))
    ensures Get(JsonRpcResult(id, result), "id") == Some(if id.Some? then id.value else Null)
    ensures Get(JsonRpcErrorWithData(id, code, message, data), "id") == Some(if id.Some? then id.value else Null)
  {
    if id.Some? {
      RequestIdRoundTrip(ValueToRequestId(id.value).value, id.value);
    }
  }

  /** Under a usable id an object result comes back under "result", any other leaves it empty; without
      an id any result comes back. */
  lemma ResultComesBack(id: Json, result: Json)
    ensures ValueToRequestId(id).Some? ==>
              Get(JsonRpcResult(Some(id), result), "result") == Some(if result.Object? then result else Object(map[]))
    ensures Get(JsonRpcResult(None, result), "result") == Some(result)
  {
  }

  /** An error response shows this code, message and data, and nothing else. */
  predicate ShowsError(response: Json, code: int, message: string, data: Option<Json>) {
    var error := Get(response, "error");
    && error.Some? && error.value.Object?
    && Get(error.value, "code") == Some(Integer(code))
    && Get(error.value, "message") == Some(Str(message))
    && Get(error.value, "data") == data
    && error.value.fields.Keys <= {"code", "message", "data"}
  }

  lemma ErrorComesBack(id: Option<Json>, code: int, message: string, data: Option<Json>)
    ensures ShowsError(JsonRpcErrorWithData(id, code, message, data), code, message, data)
  {
    var bare := map["code" := Integer(code), "message" := Str(message)];
    assert "code" != "data" && "message" != "data";
    assert data.None? ==> "data" !in bare;
  }

  /** The codes of section 5.1 of JSON-RPC 2.0. */
  lemma StandardErrors(id: Option<Json>)
    ensures ShowsError(InvalidRequest(id), -32600, "Invalid Request", None)
    ensures ShowsError(InvalidParams(id), -32602, "Invalid params", None)
    ensures ShowsError(ParseError(id), -32700, "Parse error", None)
  {
    hide ShowsError, JsonRpcErrorWithData;
    ErrorComesBack(id, -32600, "Invalid Request", None);
    ErrorComesBack(id, -32602, "Invalid params", None);
    ErrorComesBack(id, -32700, "Parse error", None);
  }
}
