/** The MCP endpoint: single values and batches (src/http/handlers.rs, src/mcp/server.rs). */
module McpServer {
  import opened Prelude
  import opened Json
  import opened Rpc

  datatype Message =
    | Request(id: RequestId, methodName: string, params: Option<Json>)
    | Notification(methodName: string, params: Option<Json>)
    | ResponseMessage

  /** What a method execution produces before it is wrapped into an envelope. */
  datatype Answer = Success(result: Json) | Failure(code: int, message: string, data: Option<Json>)

  datatype Call = Call(id: Option<Json>, methodName: string, params: Option<Json>)

  /** SDK decoding and method execution. What a method answers may depend on every call before it. */
  datatype Backend = Backend(
    decode: Json -> Option<Message>,
    shapeIsValid: Message -> bool,
    isBlank: string -> bool,
    execute: (seq<Call>, string, Option<Json>) -> Answer)
  {
    /** A decoded request carries the id of its payload. */
    ghost predicate Valid() {
      forall v :: decode(v).Some? && decode(v).value.Request? ==>
                    Get(v, "id").Some? && ValueToRequestId(Get(v, "id").value) == Some(decode(v).value.id)
    }
  }

  predicate IsValidRequestId(id: Json) {
    id.Str? || AsI64(id).Some?
  }

  function Envelope(id: Option<Json>, answer: Answer): Json {
    match answer
    case Success(result) => JsonRpcResult(id, result)
    case Failure(code, message, data) => JsonRpcErrorWithData(id, code, message, data)
  }

  // ----- Specification -----

  predicate HasBadId(item: Json) {
    Get(item, "id").Some? && !IsValidRequestId(Get(item, "id").value)
  }

  /** The message an item decodes to, once its shape and id have been accepted. */
  function Decoded(b: Backend, item: Json): Option<Message> {
    if !item.Object? || HasBadId(item) then None else b.decode(item)
  }

  /** A notification: the only kind of item that is not answered. */
  predicate IsSilent(b: Backend, item: Json) {
    Decoded(b, item).Some? && Decoded(b, item).value.Notification?
  }

  /** The method executions an item causes. */
  function CallsOf(b: Backend, item: Json): seq<Call> {
    match Decoded(b, item)
    case Some(Request(id, m, params)) =>
      if b.shapeIsValid(Request(id, m, params)) && !b.isBlank(m)
      then [Call(Some(RequestIdToValue(id)), m, params)]
      else []
    case Some(Notification(m, params)) => if b.isBlank(m) then [] else [Call(None, m, params)]
    case _ => []
  }

  /** The answer to an item that is not a notification, after the calls in `history`. */
  function ResponseTo(b: Backend, history: seq<Call>, item: Json): Json {
    if !item.Object? || HasBadId(item) then InvalidRequest(None)
    else
      match b.decode(item)
      case Some(Request(id, m, params)) =>
        var value := Some(RequestIdToValue(id));
        if !b.shapeIsValid(Request(id, m, params)) then InvalidParams(value)
        else if b.isBlank(m) then InvalidRequest(value)
        else Envelope(value, b.execute(history, m, params))
      case _ => InvalidRequest(Get(item, "id"))
  }

  function Answered(b: Backend): Json -> bool {
    (item: Json) => !IsSilent(b, item)
  }

  function AllCalls(b: Backend, items: seq<Json>): seq<Call> {
    if items == [] then [] else CallsOf(b, items[0]) + AllCalls(b, items[1..])
  }

  /** The responses to a batch: item after item, each seeing the calls of those before it. */
  function BatchResponses(b: Backend, history: seq<Call>, items: seq<Json>): seq<Json>
    decreases |items|
  {
    if items == [] then []
    else
      (if IsSilent(b, items[0]) then [] else [ResponseTo(b, history, items[0])])
      + BatchResponses(b, history + CallsOf(b, items[0]), items[1..])
  }

  datatype HttpReply = NoContent | OkJson(body: Json)

  function EndpointReply(b: Backend, history: seq<Call>, payload: Option<Json>): HttpReply {
    match payload
    case None => OkJson(ParseError(None))
    case Some(Array(items)) =>
      var responses := BatchResponses(b, history, items);
      if items == [] then OkJson(Array([InvalidRequest(None)]))
      else if responses == [] then NoContent
      else OkJson(Array(responses))
    case Some(item) => if IsSilent(b, item) then NoContent else OkJson(ResponseTo(b, history, item))
  }

  function EndpointCalls(b: Backend, payload: Option<Json>): seq<Call> {
    match payload
    case None => []
    case Some(Array(items)) => AllCalls(b, items)
    case Some(item) => CallsOf(b, item)
  }

  // ----- The server -----

  class Server {
    const backend: Backend
    /** Every method execution so far, in order; it stands for whatever state they left behind. */
    var dispatched: seq<Call>

    constructor (backend: Backend)
      ensures this.backend == backend && dispatched == []
    {
      this.backend := backend;
      dispatched := [];
    }

    method HandleJsonRpcRequest(id: Option<Json>, methodName: string, params: Option<Json>) returns (r: Json)
      modifies this
      ensures r == Envelope(id, backend.execute(old(dispatched), methodName, params))
      ensures dispatched == old(dispatched) + [Call(id, methodName, params)]
    {
      r := Envelope(id, backend.execute(dispatched, methodName, params));
      dispatched := dispatched + [Call(id, methodName, params)];
    }

    method HandleJsonRpcValue(payload: Json) returns (r: Option<Json>)
      modifies this
      ensures r == if IsSilent(backend, payload) then None else Some(ResponseTo(backend, old(dispatched), payload))
      ensures dispatched == old(dispatched) + CallsOf(backend, payload)
    {
      if !payload.Object? {
        return Some(InvalidRequest(None));
      }
      var requestId := Get(payload, "id");
      if requestId.Some? && !IsValidRequestId(requestId.value) {
        return Some(InvalidRequest(None));
      }
      var parsed := backend.decode(payload);
      match parsed
      case None =>
        return Some(InvalidRequest(requestId));
      case Some(Request(id, m, params)) =>
        var value := Some(RequestIdToValue(id));
        if !backend.shapeIsValid(parsed.value) {
          return Some(InvalidParams(value));
        }
        if backend.isBlank(m) {
          return Some(InvalidRequest(value));
        }
        var response := HandleJsonRpcRequest(value, m, params);
        return Some(response);
      case Some(Notification(m, params)) =>
        if backend.isBlank(m) {
          return None;
        }
        var _ := HandleJsonRpcRequest(None, m, params);
        return None;
      case Some(ResponseMessage) =>
        return Some(InvalidRequest(requestId));
    }

    /** `payload` is absent when the body is not JSON. */
    method McpEndpoint(payload: Option<Json>) returns (reply: HttpReply)
      modifies this
      ensures reply == EndpointReply(backend, old(dispatched), payload)
      ensures dispatched == old(dispatched) + EndpointCalls(backend, payload)
    {
      hide ResponseTo, CallsOf, IsSilent;
      if payload.None? {
        return OkJson(ParseError(None));
      }
      if payload.value.Array? {
        var batch := payload.value.items;
        if batch == [] {
          return OkJson(Array([InvalidRequest(None)]));
        }
        var responses := HandleBatch(batch);
        if responses == [] {
          return NoContent;
        }
        return OkJson(Array(responses));
      }
      var response := HandleJsonRpcValue(payload.value);
      reply := if response.Some? then OkJson(response.value) else NoContent;
    }

    method HandleBatch(batch: seq<Json>) returns (responses: seq<Json>)
      modifies this
      ensures responses == BatchResponses(backend, old(dispatched), batch)
      ensures dispatched == old(dispatched) + AllCalls(backend, batch)
    {
      hide ResponseTo, CallsOf, IsSilent, BatchResponses, AllCalls;
      responses := [];
      assert batch[0..] == batch;
      for n := 0 to |batch|
        invariant responses + BatchResponses(backend, dispatched, batch[n..])
                  == BatchResponses(backend, old(dispatched), batch)
        invariant dispatched + AllCalls(backend, batch[n..]) == old(dispatched) + AllCalls(backend, batch)
      {
        BatchStep(backend, dispatched, batch, n);
        ghost var before, calls := dispatched, CallsOf(backend, batch[n]);
        var response := HandleJsonRpcValue(batch[n]);
        if response.Some? {
          responses := responses + [response.value];
        }
        assert before + (calls + AllCalls(backend, batch[n + 1..])) == dispatched + AllCalls(backend, batch[n + 1..]);
      }
      assert batch[|batch|..] == [];
      EmptyBatch(backend, dispatched);
    }
  }

  lemma EmptyBatch(b: Backend, history: seq<Call>)
    ensures BatchResponses(b, history, []) == [] && AllCalls(b, []) == []
  {
  }

  lemma BatchStep(b: Backend, history: seq<Call>, batch: seq<Json>, n: nat)
    requires n < |batch|
    ensures BatchResponses(b, history, batch[n..])
            == (if IsSilent(b, batch[n]) then [] else [ResponseTo(b, history, batch[n])])
               + BatchResponses(b, history + CallsOf(b, batch[n]), batch[n + 1..])
    ensures AllCalls(b, batch[n..]) == CallsOf(b, batch[n]) + AllCalls(b, batch[n + 1..])
  {
    hide ResponseTo, CallsOf, IsSilent;
    assert batch[n..][1..] == batch[n + 1..];
  }

  // ----- What clients rely on -----

  /** Every answer is a response object, and it carries the item's own id whenever that is a string
      or a 64-bit integer, and null otherwise. */
  lemma ResponsesCarryTheirId(b: Backend, history: seq<Call>, item: Json)
    requires b.Valid() && !IsSilent(b, item)
    ensures var id := Get(item, "id");
            var r := ResponseTo(b, history, item);
            && IsResponse(r)
            && Get(r, "id") == Some(if id.Some? && IsValidRequestId(id.value) then id.value else Null)
  {
    hide IsResponse;
    var id := Get(item, "id");
    if !item.Object? || HasBadId(item) {
      EnvelopesAreResponses(None, Null, -32600, "Invalid Request", None);
    } else {
      EnvelopesAreResponses(id, Null, -32600, "Invalid Request", None);
      EnvelopesAreResponses(id, Null, -32602, "Invalid params", None);
      var m := b.decode(item);
      if m.Some? && m.value.Request? {
        RequestIdRoundTrip(m.value.id, id.value);
        match b.execute(history, m.value.methodName, m.value.params)
        case Success(result) => EnvelopesAreResponses(id, result, 0, "", None);
        case Failure(code, message, data) => EnvelopesAreResponses(id, Null, code, message, data);
      }
    }
  }

  /** An item with a present id of any other kind is never executed, and is answered with an invalid
      request error. */
  lemma BadIdsNeverDispatch(b: Backend, history: seq<Call>, item: Json)
    requires HasBadId(item)
    ensures CallsOf(b, item) == [] && !IsSilent(b, item) && ResponseTo(b, history, item) == InvalidRequest(None)
  {
  }

  /** A request executes at most once and under its own id; a notification executes without one. */
  lemma CallsCarryTheirId(b: Backend, item: Json)
    requires b.Valid()
    ensures |CallsOf(b, item)| <= 1
    ensures forall c :: c in CallsOf(b, item) ==> c.id == if IsSilent(b, item) then None else Get(item, "id")
  {
    var m := Decoded(b, item);
    if m.Some? && m.value.Request? {
      RequestIdRoundTrip(m.value.id, Get(item, "id").value);
    }
  }

  lemma {:induction false} BatchLength(b: Backend, history: seq<Call>, items: seq<Json>)
    ensures |BatchResponses(b, history, items)| == |Filter(Answered(b), items)|
    decreases |items|
  {
    hide ResponseTo, CallsOf, IsSilent;
    if items != [] {
      BatchLength(b, history + CallsOf(b, items[0]), items[1..]);
    }
  }

  lemma HistoryStep(b: Backend, history: seq<Call>, items: seq<Json>, i: nat)
    requires i < |items|
    ensures history + AllCalls(b, items[..i + 1])
            == (history + CallsOf(b, items[0])) + AllCalls(b, items[1..][..i])
  {
    hide CallsOf;
    assert items[..i + 1][1..] == items[1..][..i];
  }

  /** Response `k` of a batch is that to answered item `k`, executed after the calls of exactly the
      items in front of it, silent ones included. */
  lemma {:induction false} BatchRespondsInOrder(b: Backend, history: seq<Call>, items: seq<Json>, k: nat)
    requires k < |Filter(Answered(b), items)|
    ensures |BatchResponses(b, history, items)| == |Filter(Answered(b), items)|
    ensures var i := NthIndex(Answered(b), items, k);
            && items[i] == Filter(Answered(b), items)[k] && !IsSilent(b, items[i])
            && BatchResponses(b, history, items)[k] == ResponseTo(b, history + AllCalls(b, items[..i]), items[i])
    decreases |items|
  {
    hide ResponseTo, CallsOf, IsSilent, BatchResponses, AllCalls, Filter;
    FilterNil(Answered(b));
    BatchLength(b, history, items);
    FilterSplits(Answered(b), items, k);
    var x, tail := items[0], items[1..];
    assert items == [x] + tail;
    FilterCons(Answered(b), x, tail);
    BatchStep(b, history, items, 0);
    assert items[0..] == items;
    if !IsSilent(b, x) && k == 0 {
      EmptyBatch(b, history);
      assert items[..0] == [] && history + [] == history;
    } else {
      var j := if IsSilent(b, x) then k else k - 1;
      BatchRespondsInOrder(b, history + CallsOf(b, x), tail, j);
      HistoryStep(b, history, items, NthIndex(Answered(b), tail, j));
    }
  }

  /** A nonempty batch is answered with 204 exactly when every item is a notification; otherwise its
      responses are those of the other items, in batch order, each carrying its item's id. */
  lemma BatchReplies(b: Backend, history: seq<Call>, items: seq<Json>)
    requires b.Valid() && items != []
    ensures var answered := Filter(Answered(b), items);
            var reply := EndpointReply(b, history, Some(Array(items)));
            && (reply == NoContent <==> forall i :: 0 <= i < |items| ==> IsSilent(b, items[i]))
            && (reply.OkJson? ==>
                  && reply.body.Array? && |reply.body.items| == |answered|
                  && forall k :: 0 <= k < |answered| ==>
                       var id := Get(answered[k], "id");
                       && IsResponse(reply.body.items[k])
                       && Get(reply.body.items[k], "id")
                          == Some(if id.Some? && IsValidRequestId(id.value) then id.value else Null))
  {
    hide ResponseTo, CallsOf, IsSilent, IsResponse, Filter, Get, BatchResponses, AllCalls;
    var answered := Filter(Answered(b), items);
    BatchLength(b, history, items);
    FilterMembers(Answered(b), items);
    if forall i :: 0 <= i < |items| ==> IsSilent(b, items[i]) {
      FilterNone(Answered(b), items);
    } else {
      var i :| 0 <= i < |items| && !IsSilent(b, items[i]);
      assert items[i] in answered;
    }
    forall k | 0 <= k < |answered|
      ensures var id := Get(answered[k], "id");
              && IsResponse(BatchResponses(b, history, items)[k])
              && Get(BatchResponses(b, history, items)[k], "id")
                 == Some(if id.Some? && IsValidRequestId(id.value) then id.value else Null)
    {
      BatchRespondsInOrder(b, history, items, k);
      var i := NthIndex(Answered(b), items, k);
      ResponsesCarryTheirId(b, history + AllCalls(b, items[..i]), items[i]);
    }
  }

  // ----- What one item leads to -----

  /** Ids are strings and 64-bit integers, and nothing else. */
  lemma ValidIds(id: Json)
    ensures IsValidRequestId(id)
            <==> match id
                 case Str(_) => true
                 case Integer(n) => -9_223_372_036_854_775_808 <= n <= 9_223_372_036_854_775_807
                 case _ => false
  {
  }

  /** A well-formed request runs its own method with its own parameters, once, under its own id, and the
      answer comes back: an object result under "result", a failure under "error". */
  lemma RequestsRun(b: Backend, history: seq<Call>, item: Json)
    requires b.Valid() && item.Object? && !HasBadId(item)
    requires b.decode(item).Some? && b.decode(item).value.Request?
    requires b.shapeIsValid(b.decode(item).value) && !b.isBlank(b.decode(item).value.methodName)
    ensures var request := b.decode(item).value;
            var r := ResponseTo(b, history, item);
            && !IsSilent(b, item)
            && CallsOf(b, item) == [Call(Get(item, "id"), request.methodName, request.params)]
            && match b.execute(history, request.methodName, request.params)
               case Success(result) => result.Object? ==> Get(r, "result") == Some(result)
               case Failure(code, message, data) => ShowsError(r, code, message, data)
  {
    hide ShowsError, JsonRpcErrorWithData;
    var request := b.decode(item).value;
    RequestIdRoundTrip(request.id, Get(item, "id").value);
    match b.execute(history, request.methodName, request.params)
    case Success(result) => ResultComesBack(Get(item, "id").value, result);
    case Failure(code, message, data) => ErrorComesBack(Get(item, "id"), code, message, data);
  }

  /** A notification runs its method unless the name is blank, and is never answered. */
  lemma NotificationsRun(b: Backend, item: Json)
    requires item.Object? && !HasBadId(item)
    requires b.decode(item).Some? && b.decode(item).value.Notification?
    ensures var n := b.decode(item).value;
            && IsSilent(b, item)
            && CallsOf(b, item) == if b.isBlank(n.methodName) then [] else [Call(None, n.methodName, n.params)]
  {
  }

  /** Everything else runs nothing and is refused: parameters of the wrong shape as invalid parameters,
      all other items as invalid requests. */
  lemma OthersAreRefused(b: Backend, history: seq<Call>, item: Json)
    ensures !item.Object? || HasBadId(item) || b.decode(item).None? || b.decode(item).value.ResponseMessage? ==>
              && CallsOf(b, item) == [] && !IsSilent(b, item)
              && ShowsError(ResponseTo(b, history, item), -32600, "Invalid Request", None)
    ensures item.Object? && !HasBadId(item) && b.decode(item).Some? && b.decode(item).value.Request? ==>
              var request := b.decode(item).value;
              && (!b.shapeIsValid(request) ==>
                    && CallsOf(b, item) == []
                    && ShowsError(ResponseTo(b, history, item), -32602, "Invalid params", None))
              && (b.shapeIsValid(request) && b.isBlank(request.methodName) ==>
                    && CallsOf(b, item) == []
                    && ShowsError(ResponseTo(b, history, item), -32600, "Invalid Request", None))
  {
    hide ShowsError, JsonRpcErrorWithData, InvalidRequest, InvalidParams;
    StandardErrors(None);
    StandardErrors(Get(item, "id"));
    if b.decode(item).Some? && b.decode(item).value.Request? {
      StandardErrors(Some(RequestIdToValue(b.decode(item).value.id)));
    }
  }

  /** A body that is not JSON is a parse error, an empty batch one invalid request in a batch, a single
      item its own answer or none, and none of the first two runs anything. */
  lemma SinglesAndErrors(b: Backend, history: seq<Call>, item: Json)
    ensures EndpointCalls(b, None) == []
    ensures var r := EndpointReply(b, history, None);
            r.OkJson? && ShowsError(r.body, -32700, "Parse error", None)
    ensures EndpointCalls(b, Some(Array([]))) == []
    ensures var r := EndpointReply(b, history, Some(Array([])));
            && r.OkJson? && r.body.Array? && |r.body.items| == 1
            && ShowsError(r.body.items[0], -32600, "Invalid Request", None)
    ensures !item.Array? ==>
              && EndpointCalls(b, Some(item)) == CallsOf(b, item)
              && EndpointReply(b, history, Some(item))
                 == if IsSilent(b, item) then NoContent else OkJson(ResponseTo(b, history, item))
  {
    hide ShowsError, ResponseTo, IsSilent, InvalidRequest, ParseError;
    StandardErrors(None);
  }
}
