/** RpcController and RpcChannel: one call, and the events that race to complete it. */
module RpcChannels {
  import opened Bytes
  import opened ErrorCodes
  import MsgIds
  import opened Wrappers

  // ---- The controller ----

  datatype Controller = Controller(
    errorCode: int32,
    errorInfo: seq<byte>,
    msgId: seq<byte>,
    failed: bool,
    cancelled: bool,
    finished: bool,
    timeout: int32)

  const NEW_CONTROLLER: Controller := Controller(0, [], [], false, false, false, 1000)

  function WithError(c: Controller, code: int32, info: seq<byte>): Controller {
    c.(errorCode := code, errorInfo := info, failed := true)
  }

  function Cancelled(c: Controller): Controller {
    c.(cancelled := true, failed := true, finished := true)
  }

  /** std::to_string */
  function Digits(n: nat): seq<byte> {
    if n < 10 then [48 + n] else Digits(n / 10) + [48 + n % 10]
  }

  function ToText(n: int): seq<byte> {
    if n < 0 then [45] + Digits(-n) else Digits(n)
  }

  function TimeoutInfo(c: Controller): seq<byte> { Ascii("rpc call timeout ") + ToText(c.timeout) }

  class RpcController {
    var errorCode: int32
    var errorInfo: seq<byte>
    var msgId: seq<byte>
    var failed: bool
    var cancelled: bool
    var finished: bool
    var timeout: int32

    constructor ()
      ensures Value() == NEW_CONTROLLER
    {
      errorCode, errorInfo, msgId, timeout := 0, [], [], 1000;
      failed, cancelled, finished := false, false, false;
    }

    function Value(): Controller
      reads this
    {
      Controller(errorCode, errorInfo, msgId, failed, cancelled, finished, timeout)
    }

    method Reset()
      modifies this
      ensures Value() == NEW_CONTROLLER
    {
      errorCode := 0;
      errorInfo := [];
      msgId := [];
      failed := false;
      cancelled := false;
      finished := false;
      timeout := 1000;
    }

    method StartCancel()
      modifies this
      ensures Value() == old(Value()).(cancelled := true, failed := true, finished := true)
    {
      cancelled := true;
      failed := true;
      SetFinished(true);
    }

    method SetError(code: int32, info: seq<byte>)
      modifies this
      ensures Value() == old(Value()).(errorCode := code, errorInfo := info, failed := true)
    {
      errorCode := code;
      errorInfo := info;
      failed := true;
    }

    method SetFinished(value: bool)
      modifies this
      ensures Value() == old(Value()).(finished := value)
    {
      finished := value;
    }

    method SetMsgId(id: seq<byte>)
      modifies this
      ensures Value() == old(Value()).(msgId := id)
    {
      msgId := id;
    }
  }

  // ---- A call once its request is on the way ----

  /** What the client waits for. */
  datatype Waiting = ForConnection | ForWrite | ForResponse | ForNothing

  /** `controller` is the one given to Init; `given` the one given to CallMethod, on which the timer acts, if that is another.
      `seen` lists what each run of the user's closure found in the controller. */
  datatype Call = Call(
    controller: Controller,
    given: Option<Controller>,
    hasClosure: bool,
    seen: seq<Controller>,
    timer: bool,
    waiting: Waiting)
  {
    /** The controller the timer acts on. */
    function Timed(): Controller {
      match given
      case None => controller
      case Some(g) => g
    }
  }

  /** What the timeout leaves in the controller it acts on. */
  function TimedOut(c: Controller): Controller {
    WithError(Cancelled(c), ERROR_RPC_CALL_TIMEOUT, TimeoutInfo(c))
  }

  /** A decoded response: whether its payload parses, and the error it carries. */
  datatype Response = Response(parses: bool, errCode: int32, errInfo: seq<byte>)

  datatype Event =
    | Timeout
    | ConnectFailed(code: int32, info: seq<byte>)
    | ConnectDone
    | WriteDone
    | Received(response: Response)

  /** callBack */
  function CalledBack(c: Call): Call {
    if c.controller.finished || !c.hasClosure then c
    else c.(seen := c.seen + [c.controller], controller := c.controller.(finished := true))
  }

  /** The timer fires once; each callback of the client is run once, and registers the next. */
  predicate Enabled(c: Call, e: Event) {
    match e
    case Timeout => c.timer
    case ConnectFailed(_, _) => c.waiting.ForConnection?
    case ConnectDone => c.waiting.ForConnection?
    case WriteDone => c.waiting.ForWrite?
    case Received(_) => c.waiting.ForResponse?
  }

  /** What a failing event leaves in the controller before the closure is considered. */
  function Noted(c: Controller, e: Event): Controller {
    match e
    case ConnectFailed(code, info) => WithError(c, code, info)
    case Received(r) =>
      if !r.parses then WithError(c, ERROR_FAILED_SERIALIZE, Ascii("serialize error"))
      else if r.errCode != 0 then WithError(c, r.errCode, r.errInfo)
      else c
    case _ => c
  }

  function After(c: Call, e: Event): Call
    requires Enabled(c, e)
  {
    match e
    case Timeout =>
      var c1 := c.(timer := false);
      if c.Timed().finished then c1
      else if c.given.None? then CalledBack(c1.(controller := TimedOut(c.controller)))
      else CalledBack(c1.(given := Some(TimedOut(c.given.value))))
    case ConnectFailed(_, _) => CalledBack(c.(controller := Noted(c.controller, e), waiting := ForNothing))
    case ConnectDone => c.(waiting := ForWrite)
    case WriteDone => c.(waiting := ForResponse)
    case Received(_) => CalledBack(c.(controller := Noted(c.controller, e), waiting := ForNothing))
  }

  ghost predicate Leads(c: Call, events: seq<Event>, d: Call)
    decreases |events|
  {
    if events == [] then d == c
    else Enabled(c, events[0]) && Leads(After(c, events[0]), events[1..], d)
  }

  predicate Completing(e: Event) { e.Timeout? || e.ConnectFailed? || e.Received? }

  /** The first event that completes the call; the timeout only does if `live`, the timer finding its controller unfinished. */
  function FirstCompleting(events: seq<Event>, live: bool): (r: Option<Event>)
    ensures r.Some? ==> Completing(r.value) && r.value in events && (r.value.Timeout? ==> live)
    ensures r.None? <==> forall e <- events :: !Completing(e) || (e.Timeout? && !live)
  {
    if events == [] then None
    else if Completing(events[0]) && (events[0].Timeout? ==> live) then Some(events[0])
    else FirstCompleting(events[1..], live)
  }

  /** The first failure the client reports. */
  function FirstReport(events: seq<Event>): Option<Event> {
    if events == [] then None
    else if Completing(events[0]) && !events[0].Timeout? then Some(events[0])
    else FirstReport(events[1..])
  }

  /** Once finished, a call stays finished and its closure does not run any more. */
  lemma {:induction false} FinishedForGood(c: Call, events: seq<Event>, d: Call)
    requires c.controller.finished && Leads(c, events, d)
    ensures d.controller.finished && d.seen == c.seen
    ensures d.controller == match FirstReport(events)
      case None => c.controller
      case Some(e) => Noted(c.controller, e)
    ensures c.waiting == ForNothing ==> FirstReport(events) == None
    decreases |events|
  {
    if events != [] {
      var n := After(c, events[0]);
      FinishedForGood(n, events[1..], d);
    }
  }

  /** Over every interleaving of the timer with the steps of the connection, on a controller that starts unfinished and
      is never reset: nothing happens before the first completing event. If that is the timeout, the closure never runs if
      CallMethod was given the channel's own controller, and runs once, seeing no error, if it was given another; what the
      connection reports afterwards still replaces what is in the channel's controller. Otherwise the closure runs exactly
      once, sees what that event reported, and nothing changes the controller afterwards. */
  lemma {:induction false} CompletesAtMostOnce(c: Call, events: seq<Event>, d: Call)
    requires c.hasClosure && c.timer && !c.controller.finished && c.seen == [] && Leads(c, events, d)
    ensures match FirstCompleting(events, !c.Timed().finished)
      case None => d.seen == [] && d.controller == c.controller
      case Some(Timeout) =>
        var out := if c.given.None? then TimedOut(c.controller) else c.controller.(finished := true);
        && d.seen == (if c.given.None? then [] else [c.controller])
        && d.controller == (match FirstReport(events) case None => out case Some(e) => Noted(out, e))
      case Some(e) =>
        d.seen == [Noted(c.controller, e)] && d.controller == Noted(c.controller, e).(finished := true)
    decreases |events|
  {
    if events != [] {
      var e, n := events[0], After(c, events[0]);
      if Completing(e) && (e.Timeout? ==> !c.Timed().finished) {
        FinishedForGood(n, events[1..], d);
      } else if e.Timeout? {
        CompletesWithoutTimer(n, events[1..], d);
      } else {
        CompletesAtMostOnce(n, events[1..], d);
      }
    }
  }

  /** The same once the timer has found its own controller finished and is gone. */
  lemma {:induction false} CompletesWithoutTimer(c: Call, events: seq<Event>, d: Call)
    requires c.hasClosure && !c.timer && !c.controller.finished && c.seen == [] && Leads(c, events, d)
    ensures match FirstCompleting(events, false)
      case None => d.seen == [] && d.controller == c.controller
      case Some(e) =>
        d.seen == [Noted(c.controller, e)] && d.controller == Noted(c.controller, e).(finished := true)
    decreases |events|
  {
    if events != [] {
      var n := After(c, events[0]);
      if Completing(events[0]) {
        FinishedForGood(n, events[1..], d);
      } else {
        CompletesWithoutTimer(n, events[1..], d);
      }
    }
  }

  /** Without a closure nothing but the timeout ever finishes a controller, and then the one CallMethod was given. */
  lemma {:induction false} NeverFinishedWithoutClosure(c: Call, events: seq<Event>, d: Call)
    requires !c.hasClosure && !c.Timed().finished && !c.controller.finished && Leads(c, events, d)
    ensures d.seen == c.seen && (d.Timed().finished <==> Timeout in events)
    ensures d.given.Some? <==> c.given.Some?
    ensures c.given.Some? ==> !d.controller.finished
    decreases |events|
  {
    if events != [] {
      var n := After(c, events[0]);
      assert events == [events[0]] + events[1..];
      if events[0].Timeout? {
        StaysTimedOut(n, events[1..], d);
      } else {
        NeverFinishedWithoutClosure(n, events[1..], d);
      }
    }
  }

  lemma {:induction false} StaysTimedOut(c: Call, events: seq<Event>, d: Call)
    requires !c.hasClosure && !c.timer && c.Timed().finished && Leads(c, events, d)
    ensures d.seen == c.seen && d.Timed().finished && (d.given.Some? <==> c.given.Some?)
    ensures d.controller.finished == c.controller.finished
    decreases |events|
  {
    if events != [] {
      StaysTimedOut(After(c, events[0]), events[1..], d);
    }
  }

  // ---- What the closure and the caller see ----

  /** The decimal text of a number reads back as that number and has no leading zero. */
  lemma {:induction false} DigitsRead(n: nat)
    ensures var s := Digits(n); MsgIds.IsNumber(s) && s != [] && MsgIds.Value(s) == n && (n != 0 ==> s[0] != 48)
  {
    var head, d := if n < 10 then [] else Digits(n / 10), n % 10;
    TenfoldAndRest(n);
    if n < 10 {
      MsgIds.NoDigits();
      assert Digits(n) == head + [48 + d];
    } else {
      DigitsRead(n / 10);
    }
    hide MsgIds.Value, Digits;
    MsgIds.SnocValue(head, 48 + d);
  }

  lemma TenfoldAndRest(n: nat)
    ensures n == 10 * (n / 10) + n % 10 && 0 <= n % 10 < 10 && (10 <= n ==> 1 <= n / 10)
  {
  }

  /** A call that fails to connect: its closure runs once and sees the error of connect, on a controller that has failed and is
      not finished; afterwards it is finished, and nothing else about it ever changes. */
  lemma ConnectFailureShows(c: Call, events: seq<Event>, d: Call, code: int32, info: seq<byte>)
    requires c.hasClosure && c.timer && !c.controller.finished && c.seen == [] && Leads(c, events, d)
    requires FirstCompleting(events, !c.Timed().finished) == Some(ConnectFailed(code, info))
    ensures |d.seen| == 1 && d.seen[0] == c.controller.(errorCode := code, errorInfo := info, failed := true)
    ensures d.controller == c.controller.(errorCode := code, errorInfo := info, failed := true, finished := true)
  {
    CompletesAtMostOnce(c, events, d);
  }

  /** A call completed by its response: the closure runs once. It sees a serialisation error if the payload does not parse,
      else the error that the response carries, else a controller as it was before the call, which has not failed if it had
      not before; afterwards the controller is finished as well, and nothing else about it ever changes. */
  lemma ResponseShows(c: Call, events: seq<Event>, d: Call, r: Response)
    requires c.hasClosure && c.timer && !c.controller.finished && c.seen == [] && Leads(c, events, d)
    requires FirstCompleting(events, !c.Timed().finished) == Some(Received(r))
    ensures |d.seen| == 1 && d.controller == d.seen[0].(finished := true)
    ensures d.seen[0] ==
            if !r.parses then
              c.controller.(errorCode := 10000004, errorInfo := Ascii("serialize error"), failed := true)
            else if r.errCode != 0 then c.controller.(errorCode := r.errCode, errorInfo := r.errInfo, failed := true)
            else c.controller
  {
    hide Ascii;
    CompletesAtMostOnce(c, events, d);
  }

  /** A call whose timeout comes first, on the channel's own controller: the closure never runs; the controller has failed, is
      cancelled and finished, and holds the timeout error, until the connection reports a failure, whose error replaces it. */
  lemma TimeoutShows(c: Call, events: seq<Event>, d: Call)
    requires c.hasClosure && c.timer && !c.controller.finished && c.seen == [] && c.given.None? && Leads(c, events, d)
    requires FirstCompleting(events, true) == Some(Timeout)
    ensures d.seen == [] && d.controller.failed && d.controller.cancelled && d.controller.finished
    ensures d.controller.msgId == c.controller.msgId && d.controller.timeout == c.controller.timeout
    ensures var code, info := d.controller.errorCode, d.controller.errorInfo;
            var late, lateInfo := 10000007, Ascii("rpc call timeout ") + ToText(c.controller.timeout);
            match FirstReport(events)
            case Some(ConnectFailed(code', info')) => code == code' && info == info'
            case Some(Received(r)) =>
              if !r.parses then code == 10000004 && info == Ascii("serialize error")
              else if r.errCode != 0 then code == r.errCode && info == r.errInfo
              else code == late && info == lateInfo
            case _ => code == late && info == lateInfo
  {
    hide Ascii, ToText;
    CompletesAtMostOnce(c, events, d);
  }

  /** The same on another controller, given to CallMethod: the closure runs once and sees the channel's own as it was, which
      is only finished then. */
  lemma TimeoutElsewhereShows(c: Call, events: seq<Event>, d: Call)
    requires c.hasClosure && c.timer && !c.controller.finished && c.seen == [] && c.given.Some? && Leads(c, events, d)
    requires FirstCompleting(events, !c.given.value.finished) == Some(Timeout)
    ensures d.seen == [c.controller] && d.controller.finished
    ensures FirstReport(events) == None ==> d.controller == c.controller.(finished := true)
    ensures d.given == Some(c.given.value.(errorCode := 10000007, failed := true, cancelled := true, finished := true,
                                           errorInfo := Ascii("rpc call timeout ") + ToText(c.given.value.timeout)))
  {
    hide Ascii, ToText;
    CompletesAtMostOnce(c, events, d);
    GivenTimesOut(c, events, d);
  }

  /** Whatever completes the call: the controller given to CallMethod, if it is not the channel's own, times out exactly if the
      timeout occurs and finds it unfinished, and nothing else happens to it. */
  lemma {:induction false} GivenTimesOut(c: Call, events: seq<Event>, d: Call)
    requires c.given.Some? && Leads(c, events, d)
    ensures var g := c.given.value;
            d.given == Some(if Timeout !in events || g.finished then g
                            else g.(errorCode := 10000007, failed := true, cancelled := true, finished := true,
                                    errorInfo := Ascii("rpc call timeout ") + ToText(g.timeout)))
    decreases |events|
  {
    hide Ascii, ToText;
    if events != [] {
      assert events == [events[0]] + events[1..];
      var n := After(c, events[0]);
      if events[0].Timeout? {
        GivenStays(n, events[1..], d);
      } else {
        GivenTimesOut(n, events[1..], d);
      }
    }
  }

  lemma {:induction false} GivenStays(c: Call, events: seq<Event>, d: Call)
    requires !c.timer && Leads(c, events, d)
    ensures d.given == c.given
    decreases |events|
  {
    if events != [] {
      GivenStays(After(c, events[0]), events[1..], d);
    }
  }

  // ---- Which events can occur ----

  /** The events of the connection, without the timeout. */
  function Client(events: seq<Event>): seq<Event> {
    if events == [] then [] else (if events[0].Timeout? then [] else [events[0]]) + Client(events[1..])
  }

  function Timeouts(events: seq<Event>): nat {
    if events == [] then 0 else (if events[0].Timeout? then 1 else 0) + Timeouts(events[1..])
  }

  /** What the client can still report, given what it waits for. */
  predicate InTurn(waiting: Waiting, es: seq<Event>)
    decreases |es|
  {
    es == [] ||
    match waiting
    case ForConnection =>
      || (|es| == 1 && es[0].ConnectFailed?)
      || (es[0].ConnectDone? && InTurn(ForWrite, es[1..]))
    case ForWrite => es[0].WriteDone? && InTurn(ForResponse, es[1..])
    case ForResponse => |es| == 1 && es[0].Received?
    case ForNothing => false
  }

  ghost predicate Possible(c: Call, events: seq<Event>) { exists d :: Leads(c, events, d) }

  lemma PossibleStep(c: Call, events: seq<Event>)
    ensures Possible(c, []) && (events != [] ==>
              (Possible(c, events) <==> Enabled(c, events[0]) && Possible(After(c, events[0]), events[1..])))
  {
    assert Leads(c, [], c);
    if events != [] {
      if Possible(c, events) {
        var d :| Leads(c, events, d);
        assert Leads(After(c, events[0]), events[1..], d);
      }
      if Enabled(c, events[0]) && Possible(After(c, events[0]), events[1..]) {
        var d :| Leads(After(c, events[0]), events[1..], d);
        assert Leads(c, events, d);
      }
    }
  }

  /** A pending call can live through exactly these sequences of events: at most one timeout, at any place; and of the client
      a failure to connect, or a connection, then its request written, then one response, or a beginning of that. */
  lemma PossibleEventsIff(c: Call, events: seq<Event>)
    requires c.timer && c.waiting.ForConnection?
    ensures Possible(c, events) <==>
            && Timeouts(events) <= 1
            && var es := Client(events);
               || es == [] || (|es| == 1 && es[0].ConnectFailed?) || (|es| == 1 && es[0].ConnectDone?)
               || (|es| == 2 && es[0].ConnectDone? && es[1].WriteDone?)
               || (|es| == 3 && es[0].ConnectDone? && es[1].WriteDone? && es[2].Received?)
  {
    EventsInTurn(c, events);
    var es := Client(events);
    if 2 <= |es| {
      assert es[1..][1..] == es[2..] && es[1..][0] == es[1];
      assert InTurn(ForWrite, es[1..]) <==> es[1].WriteDone? && InTurn(ForResponse, es[2..]);
    }
  }

  lemma {:induction false} EventsInTurn(c: Call, events: seq<Event>)
    ensures Possible(c, events) <==>
            Timeouts(events) <= (if c.timer then 1 else 0) && InTurn(c.waiting, Client(events))
    decreases |events|
  {
    PossibleStep(c, events);
    hide Possible;
    if events != [] {
      var e, rest := events[0], events[1..];
      if Enabled(c, e) {
        EventsInTurn(After(c, e), rest);
        AfterWaits(c, e);
      }
      hide After;
      assert Client(events) == if e.Timeout? then Client(rest) else [e] + Client(rest);
      assert ([e] + Client(rest))[1..] == Client(rest);
    }
  }

  lemma AfterWaits(c: Call, e: Event)
    requires Enabled(c, e)
    ensures After(c, e).timer == (c.timer && !e.Timeout?)
    ensures After(c, e).waiting ==
            match e
            case Timeout => c.waiting
            case ConnectDone => ForWrite
            case WriteDone => ForResponse
            case _ => ForNothing
  {
  }

  // ---- The channel ----

  /** How CallMethod ends: with an error already reported, with the request on the way, or in a null dereference. */
  datatype Begun = Reported | Pending | Crashed

  class RpcChannel {
    const hasPeerAddr: bool
    var controller: RpcController?
    var hasClosure: bool
    var isInit: bool
    var seen: seq<Controller>
    var timer: bool
    var waiting: Waiting
    var requestId: seq<byte>
    /** The controller the timer's callback has captured. */
    var timed: RpcController?

    predicate Valid()
      reads this
    {
      !isInit ==> controller == null
    }

    constructor (hasPeerAddr: bool)
      ensures Valid() && this.hasPeerAddr == hasPeerAddr && controller == null && !isInit && seen == []
      ensures !timer && waiting == ForNothing && timed == null
    {
      this.hasPeerAddr := hasPeerAddr;
      controller, hasClosure, isInit, seen := null, false, false, [];
      timer, waiting, requestId, timed := false, ForNothing, [], null;
    }

    /** The call as the channel's own controller shows it. */
    ghost function Own(): Call
      requires controller != null
      reads this, controller
    {
      Call(controller.Value(), None, hasClosure, seen, timer, waiting)
    }

    ghost function State(): Call
      requires controller != null
      reads this, controller, timed
    {
      Own().(given := if timed == null || timed == controller then None else Some(timed.Value()))
    }

    /** A second initialisation is ignored. */
    method Init(controller: RpcController?, hasClosure: bool)
      requires Valid()
      modifies this`controller, this`hasClosure, this`isInit
      ensures Valid()
      ensures isInit && this.controller == if old(isInit) then old(this.controller) else controller
      ensures this.hasClosure == if old(isInit) then old(this.hasClosure) else hasClosure
    {
      if isInit {
        return;
      }
      this.controller := controller;
      this.hasClosure := hasClosure;
      isInit := true;
    }

    method CallBack()
      requires controller != null
      modifies this`seen, controller
      ensures State() == CalledBack(old(State())) && Own() == CalledBack(old(Own()))
    {
      if controller.finished {
        return;
      }
      if hasClosure {
        seen := seen + [controller.Value()];
        controller.SetFinished(true);
      }
    }

    /** SetError on the controller that was passed, then callBack, which asks the channel for its own; without one it
        dereferences null. */
    method Report(given: RpcController, code: int32, info: seq<byte>) returns (begun: Begun)
      modifies this`seen, given, controller
      ensures begun == if controller == null then Crashed else Reported
      ensures begun.Reported? ==>
                var error := WithError(old(given.Value()), code, info);
                var mine := if given == controller then error else old(controller.Value());
                && Own() == CalledBack(old(Own()).(controller := mine))
                && (given != controller ==> given.Value() == error)
    {
      given.SetError(code, info);
      if controller == null {
        return Crashed;
      }
      CallBack();
      begun := Reported;
    }

    /** The request's id: the controller's, else the runtime's, else a fresh one. */
    method PickId(given: RpcController, runtimeId: seq<byte>, freshId: seq<byte>)
      modifies this`requestId, given
      ensures requestId == (if old(given.msgId) != [] then old(given.msgId)
                            else if runtimeId != [] then runtimeId else freshId)
      ensures given.Value() == old(given.Value()).(msgId := requestId)
    {
      if given.msgId == [] {
        if runtimeId != [] {
          requestId := runtimeId;
          given.SetMsgId(runtimeId);
        } else {
          requestId := freshId;
          given.SetMsgId(requestId);
        }
      } else {
        requestId := given.msgId;
      }
    }

    /** CallMethod up to the point where the client starts connecting. */
    method CallMethod(given: RpcController?, argumentsPresent: bool, runtimeId: seq<byte>, freshId: seq<byte>, serialises: bool)
      returns (begun: Begun)
      requires Valid()
      modifies this`seen, this`timer, this`waiting, this`requestId, this`timed, given, controller
      ensures begun == if given == null then Crashed
                       else if argumentsPresent && hasPeerAddr && isInit && serialises then Pending
                       else if controller != null then Reported else Crashed
      ensures begun.Reported? ==>
                var c := if argumentsPresent && hasPeerAddr && old(given.msgId) == []
                         then old(given.Value()).(msgId := if runtimeId != [] then runtimeId else freshId)
                         else old(given.Value());
                var error := if !argumentsPresent then
                               WithError(c, ERROR_RPC_CHANNEL_INIT, Ascii("controller or request or response NULL"))
                             else if !hasPeerAddr then WithError(c, ERROR_RPC_PEER_ADDR, Ascii("peer addr nullptr"))
                             else WithError(c, ERROR_FAILED_SERIALIZE, Ascii("failde to serialize"));
                var mine := if given == controller then error else old(controller.Value());
                && Own() == CalledBack(old(Own()).(controller := mine))
                && (given != controller ==> given.Value() == error) && timed == old(timed)
      ensures begun.Pending? ==>
                && timed == given && requestId == given.msgId && given.Value() == old(given.Value()).(msgId := requestId)
                && requestId == (if old(given.msgId) != [] then old(given.msgId)
                                 else if runtimeId != [] then runtimeId else freshId)
                && (controller != null ==>
                      Own() == old(Own()).(timer := true, waiting := ForConnection, controller := controller.Value())
                      && (given != controller ==> controller.Value() == old(controller.Value())))
    {
      hide WithError, Ascii, CalledBack;
      if given == null {
        return Crashed;
      }
      if !argumentsPresent {
        begun := Report(given, ERROR_RPC_CHANNEL_INIT, Ascii("controller or request or response NULL"));
        return;
      }
      if !hasPeerAddr {
        begun := Report(given, ERROR_RPC_PEER_ADDR, Ascii("peer addr nullptr"));
        return;
      }
      PickId(given, runtimeId, freshId);
      if !isInit {
        begun := Report(given, ERROR_RPC_CHANNEL_INIT, Ascii("RpcChannel not call init()"));
        return;
      }
      if !serialises {
        begun := Report(given, ERROR_FAILED_SERIALIZE, Ascii("failde to serialize"));
        return;
      }
      timed := given;
      timer := true;
      waiting := ForConnection;
      begun := Pending;
    }

    /** The timer event's callback. */
    method OnTimeout()
      requires controller != null && timed != null && Enabled(State(), Timeout)
      modifies this`seen, this`timer, controller, timed
      ensures State() == After(old(State()), Timeout)
    {
      timer := false;
      if timed.finished {
        return;
      }
      var info := Ascii("rpc call timeout ") + ToText(timed.timeout);
      timed.StartCancel();
      timed.SetError(ERROR_RPC_CALL_TIMEOUT, info);
      CallBack();
    }

    /** The callback of connect; `errorCode` 0 means connected. */
    method OnConnect(errorCode: int32, errorInfo: seq<byte>)
      requires controller != null && waiting.ForConnection?
      modifies this`seen, this`waiting, controller
      ensures State() == After(old(State()), if errorCode != 0 then ConnectFailed(errorCode, errorInfo) else ConnectDone)
    {
      if errorCode != 0 {
        waiting := ForNothing;
        controller.SetError(errorCode, errorInfo);
        CallBack();
        return;
      }
      waiting := ForWrite;
    }

    /** The callback of writeMessage. */
    method OnWritten()
      requires controller != null && waiting.ForWrite?
      modifies this`waiting
      ensures State() == After(old(State()), WriteDone)
    {
      waiting := ForResponse;
    }

    /** The callback of readMessage. */
    method OnResponse(response: Response)
      requires controller != null && waiting.ForResponse?
      modifies this`seen, this`waiting, controller
      ensures State() == After(old(State()), Received(response))
    {
      waiting := ForNothing;
      if !response.parses {
        controller.SetError(ERROR_FAILED_SERIALIZE, Ascii("serialize error"));
        CallBack();
        return;
      }
      if response.errCode != 0 {
        controller.SetError(response.errCode, response.errInfo);
        CallBack();
        return;
      }
      CallBack();
    }
  }
}
