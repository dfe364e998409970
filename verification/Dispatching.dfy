/** RpcDispatcher: from a request to the service method it names, and from the method's result to the response. */
module Dispatching {
  import opened Bytes
  import opened TinyPB
  import opened Coder
  import opened ErrorCodes
  import opened Wrappers

  const DOT: byte := 46

  /** A registered protobuf service: its full name, its method names, and which payloads its request types accept. */
  datatype Service = Service(fullName: seq<byte>, methods: set<seq<byte>>, accepts: (seq<byte>, seq<byte>) -> bool)

  datatype MethodName = MethodName(service: seq<byte>, operation: seq<byte>)

  /** std::string::find_first_of(".") */
  function FirstDot(s: seq<byte>): (r: Option<nat>)
    ensures r.None? <==> DOT !in s
    ensures r.Some? ==> r.value < |s| && s[r.value] == DOT && DOT !in s[..r.value]
  {
    if s == [] then None
    else if s[0] == DOT then Some(0)
    else match FirstDot(s[1..])
      case None => None
      case Some(i) => assert s[..i + 1] == [s[0]] + s[1..][..i]; Some(i + 1)
  }

  lemma {:induction false} FirstDotAt(s: seq<byte>, k: nat)
    requires k < |s| && s[k] == DOT && DOT !in s[..k]
    ensures FirstDot(s) == Some(k)
  {
    if k != 0 {
      assert s[0] in s[..k];
      assert s[..k] == [s[0]] + s[1..][..k - 1];
      FirstDotAt(s[1..], k - 1);
    }
  }

  /** parseServiceFullName */
  function SplitName(full: seq<byte>): (r: Option<MethodName>)
    ensures r.None? <==> DOT !in full
    ensures r.Some? ==> full == r.value.service + [DOT] + r.value.operation && DOT !in r.value.service
  {
    match FirstDot(full)
    case None => None
    case Some(i) => Some(MethodName(full[..i], full[i + 1..]))
  }

  /** The full name of a method names its own service exactly when the service name has no dot in it: a service declared
      inside a protobuf package is never found. */
  lemma NamesOwnServiceIff(service: seq<byte>, operation: seq<byte>)
    ensures SplitName(service + [DOT] + operation) == Some(MethodName(service, operation)) <==> DOT !in service
  {
    var full := service + [DOT] + operation;
    if DOT !in service {
      assert full[..|service|] == service && full[|service| + 1..] == operation;
      FirstDotAt(full, |service|);
    }
  }

  /** What dispatch does with a request: it fills in an error and stops there, or starts the method. */
  datatype Dispatched = Refused(response: Message) | Started(response: Message, name: MethodName)

  function WithError(m: Message, code: int32, info: seq<byte>): Message
    requires |info| <= INT_MAX
  {
    m.(errCode := code, errInfo := info, errInfoLen := |info|)
  }

  function Dispatch(services: map<seq<byte>, Service>, request: Message): Dispatched {
    var rsp := EMPTY.(msgId := request.msgId, methodName := request.methodName);
    match SplitName(request.methodName)
    case None => Refused(WithError(rsp, ERROR_PARSE_SERVICE_NAME, Ascii("parse service name error")))
    case Some(name) =>
      if name.service !in services then
        Refused(WithError(rsp, ERROR_SERVICE_NOT_FOUND, Ascii("service not found")))
      else
        var service := services[name.service];
        if name.operation !in service.methods then
          Refused(WithError(rsp, ERROR_SERVICE_NOT_FOUND, Ascii("method not found")))
        else if !service.accepts(name.operation, request.pbData) then
          Refused(WithError(rsp, ERROR_FAILED_DESERIALIZE, Ascii("deserilize error")))
        else Started(rsp, name)
  }

  /** Every response carries the request's id and method; a method is started exactly when the request's full name is a
      registered service without a dot, a dot, and one of its methods that accepts the payload; and a refusal says by its
      code what was missing. */
  lemma DispatchDecides(services: map<seq<byte>, Service>, request: Message)
    ensures var d := Dispatch(services, request);
            && d.response.msgId == request.msgId && d.response.methodName == request.methodName
            && d.response.pbData == [] && d.response.errInfoLen == |d.response.errInfo|
            && (d.Started? <==> d.response.errCode == 0)
            && (d.Started? <==> exists s, op :: Offered(services, request, s, op) && services[s].accepts(op, request.pbData))
            && (d.Started? ==> Offered(services, request, d.name.service, d.name.operation))
            && (d.Refused? ==>
                 && (d.response.errCode == 10000010 <==> DOT !in request.methodName)
                 && (d.response.errCode == 10000008 <==>
                      DOT in request.methodName && !exists s, op :: Offered(services, request, s, op))
                 && (d.response.errCode == 10000003 <==> exists s, op :: Offered(services, request, s, op)))
  {
    var split := SplitName(request.methodName);
    forall s, op | Offered(services, request, s, op)
      ensures split == Some(MethodName(s, op))
    {
      NamesOwnServiceIff(s, op);
    }
    if split.Some? && split.value.service in services && split.value.operation in services[split.value.service].methods {
      assert Offered(services, request, split.value.service, split.value.operation);
    }
  }

  /** The request names method `op` of the registered service `s`. */
  predicate Offered(services: map<seq<byte>, Service>, request: Message, s: seq<byte>, op: seq<byte>) {
    request.methodName == s + [DOT] + op && DOT !in s && s in services && op in services[s].methods
  }

  /** A method started for a request, and the response its closure will fill in. */
  datatype Start = Start(request: Message, response: Message, name: MethodName)

  /** The methods started for requests that come one after the other. */
  function Starts(services: map<seq<byte>, Service>, requests: seq<Message>): seq<Start> {
    if requests == [] then []
    else
      var last := requests[|requests| - 1];
      var d := Dispatch(services, last);
      Starts(services, requests[..|requests| - 1]) + if d.Started? then [Start(last, d.response, d.name)] else []
  }

  lemma NoStarts(services: map<seq<byte>, Service>)
    ensures Starts(services, []) == []
  {
  }

  lemma StartsStep(services: map<seq<byte>, Service>, ms: seq<Message>, i: nat)
    requires i < |ms|
    ensures var d := Dispatch(services, ms[i]);
            var more := if d.Started? then [Start(ms[i], d.response, d.name)] else [];
            Starts(services, ms[..i + 1]) == Starts(services, ms[..i]) + more
  {
    assert ms[..i + 1][..i] == ms[..i];
  }

  lemma {:induction false} StartsConcat(services: map<seq<byte>, Service>, a: seq<Message>, b: seq<Message>)
    ensures Starts(services, a + b) == Starts(services, a) + Starts(services, b)
    decreases |b|
  {
    hide Dispatch;
    if b == [] {
      assert a + b == a;
      NoStarts(services);
    } else {
      var n := |b| - 1;
      assert (a + b)[..|a| + n] == a + b[..n];
      StartsConcat(services, a, b[..n]);
    }
  }

  /** Requests that can all be dispatched start one method each, in order. */
  lemma {:induction false} AllStarted(services: map<seq<byte>, Service>, ms: seq<Message>)
    requires forall i | 0 <= i < |ms| :: Dispatch(services, ms[i]).Started?
    ensures |Starts(services, ms)| == |ms|
    ensures forall i | 0 <= i < |ms| ::
              var d := Dispatch(services, ms[i]); Starts(services, ms)[i] == Start(ms[i], d.response, d.name)
  {
    hide Dispatch;
    if ms != [] {
      AllStarted(services, ms[..|ms| - 1]);
    }
  }

  /** The response once the method has run its closure; `result` is None when it cannot be serialised. */
  function Answered(rsp: Message, result: Option<seq<byte>>): Message {
    match result
    case None => WithError(rsp, ERROR_FAILED_SERIALIZE, Ascii("serilize error"))
    case Some(data) => rsp.(pbData := data, errCode := 0, errInfo := [])
  }

  /** The closure of the call-th method started, run with the method's result. */
  datatype Finish = Finish(call: nat, result: Option<seq<byte>>)

  predicate FinishesOf(starts: seq<Start>, finishes: seq<Finish>) {
    forall i | 0 <= i < |finishes| :: finishes[i].call < |starts|
  }

  /** What these closures reply. */
  function RepliesOf(starts: seq<Start>, finishes: seq<Finish>): (r: seq<Message>)
    requires FinishesOf(starts, finishes)
    ensures |r| == |finishes|
    ensures forall i | 0 <= i < |r| :: r[i] == Answered(starts[finishes[i].call].response, finishes[i].result)
  {
    seq(|finishes|, i requires 0 <= i < |finishes| => Answered(starts[finishes[i].call].response, finishes[i].result))
  }

  /** A call handed to a service method, with the response its closure will fill in. */
  datatype Call = Call(request: TinyPBProtocol, response: TinyPBProtocol, name: MethodName)

  class RpcDispatcher {
    var services: map<seq<byte>, Service>

    constructor ()
      ensures services == map[]
    {
      services := map[];
    }

    method RegisterService(service: Service)
      modifies this
      ensures services == old(services)[service.fullName := service]
    {
      services := services[service.fullName := service];
    }

    method SetTinyPBError(msg: TinyPBProtocol, code: int32, info: seq<byte>)
      requires |info| <= INT_MAX
      modifies msg
      ensures msg.Value() == WithError(old(msg.Value()), code, info)
    {
      msg.errCode := code;
      msg.errInfo := info;
      msg.errInfoLen := |info|;
    }

    method ParseServiceFullName(full: seq<byte>) returns (ok: bool, service: seq<byte>, name: seq<byte>)
      ensures ok == SplitName(full).Some?
      ensures ok ==> SplitName(full) == Some(MethodName(service, name))
    {
      service, name := [], [];
      if full == [] {
        return false, [], [];
      }
      var i := FirstDot(full);
      if i.None? {
        return false, [], [];
      }
      service := full[..i.value];
      name := full[i.value + 1..];
      assert full[i.value + 1..i.value + 1 + (|full| - i.value - 1)] == name;
      ok := true;
    }

    /** The call made to the service, if any. A refused request fills the response in and calls nothing: nothing will
        ever send that response. */
    method DispatchRequest(request: TinyPBProtocol, response: TinyPBProtocol) returns (call: Option<Call>)
      requires request != response && response.Value() == EMPTY
      modifies response
      ensures var d := Dispatch(services, request.Value());
              && response.Value() == d.response
              && call == if d.Started? then Some(Call(request, response, d.name)) else None
    {
      var full := request.methodName;
      response.msgId := request.msgId;
      response.methodName := request.methodName;
      var ok, serviceName, methodName := ParseServiceFullName(full);
      if !ok {
        SetTinyPBError(response, ERROR_PARSE_SERVICE_NAME, Ascii("parse service name error"));
        return None;
      }
      if serviceName !in services {
        SetTinyPBError(response, ERROR_SERVICE_NOT_FOUND, Ascii("service not found"));
        return None;
      }
      var service := services[serviceName];
      if methodName !in service.methods {
        SetTinyPBError(response, ERROR_SERVICE_NOT_FOUND, Ascii("method not found"));
        return None;
      }
      if !service.accepts(methodName, request.pbData) {
        SetTinyPBError(response, ERROR_FAILED_DESERIALIZE, Ascii("deserilize error"));
        return None;
      }
      call := Some(Call(request, response, MethodName(serviceName, methodName)));
    }

    /** The part of the closure that fills the response in, before it is replied. */
    method FillResponse(response: TinyPBProtocol, result: Option<seq<byte>>)
      modifies response
      ensures response.Value() == Answered(old(response.Value()), result)
    {
      match result {
        case None =>
          SetTinyPBError(response, ERROR_FAILED_SERIALIZE, Ascii("serilize error"));
        case Some(data) =>
          response.pbData := data;
          response.errCode := 0;
          response.errInfo := [];
      }
    }
  }
}
