/** The provisioning workflow (`source/azure_iot_provisioning_client.c`) as a state machine on values,
    and what holds in every run of it. The response parser of the Azure SDK is an oracle. */
module ProvisioningSpec {
  import opened Common

  const RESPONSE_MAX: nat := 128 + 512
  const POLLING_INTERVAL_S: uint32 := 3
  const CLOCK_RANGE: nat := 0x1_0000_0000_0000_0000

  datatype Workflow =
    | Init | Connect | Subscribe | Subscribing | Request | Requesting | Response | Waiting | Complete

  datatype Status = Unassigned | Assigning | Assigned | Failed | Disabled

  predicate OperationComplete(s: Status) { s.Assigned? || s.Failed? || s.Disabled? }

  datatype Registration = Registration(
    operationId: Span, hostname: Span, deviceId: Span,
    status: Status, retryAfterSeconds: uint32, extendedError: uint32)

  /** The result of `az_iot_provisioning_client_parse_received_topic_and_payload`; spans are relative
      to the payload. A failed parse may leave anything in the output. */
  datatype Parse = NoMatch | Malformed(left: Registration) | Parsed(response: Registration)

  type Parser = (bytes, bytes) -> Parse

  predicate SpansWithin(r: Registration, bound: nat) {
    && r.operationId.at + r.operationId.len <= bound
    && r.hostname.at + r.hostname.len <= bound
    && r.deviceId.at + r.deviceId.len <= bound
  }

  /** A parsed response only refers to bytes of the payload it was parsed from. */
  ghost predicate ParserContract(parse: Parser) {
    forall t: bytes, p: bytes {:trigger parse(t, p)} ::
      parse(t, p).Parsed? ==> SpansWithin(parse(t, p).response, |p|)
  }

  /** The client's fields that the workflow uses. Spans of `reg` are offsets into `buf`. */
  datatype State = State(
    wf: Workflow, last: AzureResult, retryAfter: nat,
    buf: bytes, topicLen: nat, payloadLen: nat, reg: Registration)
  {
    predicate Fits() { |buf| == RESPONSE_MAX && topicLen + payloadLen <= RESPONSE_MAX }

    function Topic(): bytes
      requires Fits()
    {
      buf[..topicLen]
    }

    function Payload(): bytes
      requires Fits()
    {
      buf[topicLen..topicLen + payloadLen]
    }

    /** The bytes of a span; a span left by a failed parse may denote nothing. */
    function Bytes(s: Span): bytes {
      if s.at + s.len <= |buf| then Cut(buf, s) else []
    }
  }

  /** The outcome of every call that one trigger may make, and the clock it reads. */
  datatype Attempt = Attempt(
    userName: AzureResult, token: bool, connect: bool, subscribe: bool,
    topic: bool, payload: bool, publish: bool, now: nat)

  datatype Event =
    | Trigger(attempt: Attempt)
    | SubAck
    | Publish(topic: bytes, payload: bytes)
    | LoopFailed

  /** The MQTT calls of the client. */
  datatype Topic = Register | Query(operationId: bytes)
  datatype Call = ConnectCall | SubscribeCall | PublishCall(topic: Topic)

  // ----- One step -----

  /** `prvProvClientUpdateState`. In INIT the code asserts. */
  function Update(s: State, result: AzureResult): State {
    var wf :=
      match s.wf
      case Connect => if result.Success? then Subscribe else Complete
      case Subscribe => if result.Success? then Subscribing else Complete
      case Subscribing => if result.Success? then Request else Complete
      case Request => if result.Success? then Requesting else Complete
      case Requesting => if result.Success? then Response else Complete
      case Response => if result.ErrorPending? then Waiting else Complete
      case Waiting => if result.Success? then Request else Complete
      case Complete => Complete
      case Init => Init;
    s.(wf := wf, last := result)
  }

  function ConnectResult(a: Attempt): AzureResult {
    if !a.userName.Success? then a.userName
    else if !a.token then ErrorTokenGenerationFailed
    else if !a.connect then ErrorServerError
    else Success
  }

  function RequestResult(a: Attempt): AzureResult {
    if !a.topic || !a.payload then ErrorFailed else if !a.publish then ErrorPublishFailed else Success
  }

  function Rebase(r: Registration, base: nat): Registration {
    r.(operationId := Span(base + r.operationId.at, r.operationId.len),
    hostname := Span(base + r.hostname.at, r.hostname.len),
    deviceId := Span(base + r.deviceId.at, r.deviceId.len))
  }

  function RetrySeconds(r: Registration): uint32 {
    if r.retryAfterSeconds == 0 then POLLING_INTERVAL_S else r.retryAfterSeconds
  }

  /** `prvProvClientParseResponse`; the 64-bit sum may wrap. */
  function ParseResponse(parse: Parser, s: State, now: nat): State
    requires s.Fits()
  {
    if s.topicLen == 0 || s.payloadLen == 0 then Update(s, ErrorInvalidResponse)
    else
      match parse(s.Topic(), s.Payload())
      case NoMatch => s
      case Malformed(left) => Update(s.(reg := left), ErrorFailed)
      case Parsed(r) =>
        var reg := Rebase(r, s.topicLen);
        if r.status.Assigned? then Update(s.(reg := reg), Success)
        else if OperationComplete(r.status) then Update(s.(reg := reg), ErrorServerError)
        else
          var retry := RetrySeconds(r);
          var deadline := (now + retry as nat) % CLOCK_RANGE;
          Update(s.(reg := reg.(retryAfterSeconds := retry), retryAfter := deadline), ErrorPending)
  }

  /** `prvProvClientTriggerAction` with the action it dispatches to. */
  function TriggerAction(parse: Parser, s: State, a: Attempt): State
    requires s.Fits()
  {
    match s.wf
    case Connect => Update(s, ConnectResult(a))
    case Subscribe => Update(s, if a.subscribe then Success else ErrorSubscribeFailed)
    case Request => Update(s, RequestResult(a))
    case Response => ParseResponse(parse, s, a.now)
    case Waiting => if a.now > s.retryAfter then Update(s.(retryAfter := 0), Success) else s
    case _ => s
  }

  /** `[topic payload]` at the start of the response buffer. */
  function Stored(s: State, topic: bytes, payload: bytes): State
    requires s.Fits() && |topic| + |payload| <= RESPONSE_MAX
  {
    s.(buf := Write(Write(s.buf, 0, topic), |topic|, payload), topicLen := |topic|, payloadLen := |payload|)
  }

  predicate Accepts(s: State, ev: Event) {
    ev.Publish? && s.wf.Requesting? && |ev.topic| + |ev.payload| <= RESPONSE_MAX
  }

  /** One event: a trigger, a packet, or a failure of the MQTT loop. */
  function Step(parse: Parser, s: State, ev: Event): (r: State)
    requires s.Fits()
    ensures r.Fits()
  {
    match ev
    case Trigger(a) => TriggerAction(parse, s, a)
    case SubAck => Update(s, Success)
    case Publish(t, p) =>
      if Accepts(s, ev) then Update(Stored(s, t, p), Success)
      else if s.wf.Requesting? then Update(s, ErrorOutOfMemory)
      else s
    case LoopFailed => Update(s, ErrorFailed)
  }

  /** The MQTT calls made in one step. */
  function Calls(s: State, ev: Event): seq<Call> {
    if !ev.Trigger? then []
    else
      var a := ev.attempt;
      match s.wf
      case Connect => if a.userName.Success? && a.token then [ConnectCall] else []
      case Subscribe => [SubscribeCall]
      case Request =>
        if a.topic && a.payload then
          [PublishCall(if s.payloadLen == 0 then Register else Query(s.Bytes(s.reg.operationId)))]
        else []
      case _ => []
  }

  // ----- Runs -----

  function After(parse: Parser, s: State, evs: seq<Event>): (r: State)
    requires s.Fits()
    ensures r.Fits()
    decreases |evs|
  {
    if evs == [] then s else After(parse, Step(parse, s, evs[0]), evs[1..])
  }

  lemma {:induction false} AfterAppend(parse: Parser, s: State, a: seq<Event>, b: seq<Event>)
    requires s.Fits()
    ensures After(parse, s, a + b) == After(parse, After(parse, s, a), b)
    decreases |a|
  {
    if a == [] {
      assert a + b == b;
    } else {
      assert (a + b)[1..] == a[1..] + b;
      AfterAppend(parse, Step(parse, s, a[0]), a[1..], b);
    }
  }

  lemma AfterOne(parse: Parser, s: State, ev: Event)
    requires s.Fits()
    ensures After(parse, s, [ev]) == Step(parse, s, ev)
  {
    assert [ev][1..] == [];
  }

  lemma AfterFirst(parse: Parser, s: State, ev: Event, rest: seq<Event>)
    requires s.Fits()
    ensures After(parse, s, [ev] + rest) == After(parse, Step(parse, s, ev), rest)
    ensures rest == [] ==> After(parse, s, [ev]) == Step(parse, s, ev)
  {
    assert ([ev] + rest)[1..] == rest;
    if rest == [] {
      AfterOne(parse, s, ev);
    }
  }

  predicate Initial(s: State) { s.wf.Connect? && s.Fits() && s.topicLen == 0 && s.payloadLen == 0 }

  /** `states` is a run: it starts as the first `Register` call leaves it, and each event makes a step. */
  ghost predicate IsRun(parse: Parser, states: seq<State>, evs: seq<Event>) {
    && |states| == |evs| + 1
    && Initial(states[0])
    && (forall i | 0 <= i < |states| :: states[i].Fits())
    && (forall i {:trigger evs[i]} | 0 <= i < |evs| :: states[i + 1] == Step(parse, states[i], evs[i]))
  }

  /** A run followed by one more step. */
  lemma RunExtended(parse: Parser, states: seq<State>, evs: seq<Event>, s: State, ev: Event)
    requires IsRun(parse, states, evs) && s.Fits() && s == Step(parse, states[|evs|], ev)
    ensures IsRun(parse, states + [s], evs + [ev])
  {
  }

  /** From event `from` up to event `to` no SUBACK arrives in one of these states. SUBACKs that answer
      the SUBSCRIBE (section 3.8.4 of MQTT 3.1.1) arrive in SUBSCRIBING only. */
  ghost predicate SubAcksAvoid(states: seq<State>, evs: seq<Event>, from: nat, to: nat, ws: set<Workflow>)
    requires |states| == |evs| + 1 && to <= |evs|
  {
    forall i {:trigger evs[i]} | from <= i < to :: evs[i].SubAck? ==> states[i].wf !in ws
  }

  /** The MQTT calls made in the first `n` steps, in order. */
  function CallsOf(states: seq<State>, evs: seq<Event>, n: nat): seq<Call>
    requires n <= |evs| < |states|
  {
    if n == 0 then [] else CallsOf(states, evs, n - 1) + Calls(states[n - 1], evs[n - 1])
  }

  lemma {:induction false} CallsOfLonger(states: seq<State>, evs: seq<Event>, s: State, ev: Event, n: nat)
    requires n <= |evs| < |states|
    ensures CallsOf(states + [s], evs + [ev], n) == CallsOf(states, evs, n)
  {
    if n > 0 {
      CallsOfLonger(states, evs, s, ev, n - 1);
    }
  }

  // ----- Which step completes with success -----

  ghost predicate HoldsAssigned(parse: Parser, s: State)
    requires s.Fits()
  {
    && s.topicLen > 0 && s.payloadLen > 0
    && parse(s.Topic(), s.Payload()).Parsed?
    && parse(s.Topic(), s.Payload()).response.status.Assigned?
  }

  predicate Succeeded(s: State) { s.wf.Complete? && s.last.Success? }

  /** The trigger that parses a response which the service assigned. */
  ghost predicate ParsesAssigned(parse: Parser, s: State, ev: Event)
    requires s.Fits()
  {
    ev.Trigger? && s.wf.Response? && HoldsAssigned(parse, s)
  }

  /** Exactly: a parsed ASSIGNED response, or a SUBACK in RESPONSE or COMPLETE, where none belongs. */
  lemma SuccessStep(parse: Parser, s: State, ev: Event)
    requires s.Fits()
    ensures Succeeded(Step(parse, s, ev)) <==>
              || ParsesAssigned(parse, s, ev)
              || (ev.SubAck? && (s.wf.Response? || s.wf.Complete?))
              || ((ev.Trigger? || ev.Publish?) && Succeeded(s))
  {
  }

  // ----- Every step, by its cause -----

  /** What completes a workflow with this error. */
  ghost predicate FailsWith(parse: Parser, s: State, ev: Event, code: AzureResult)
    requires s.Fits()
  {
    match ev
    case LoopFailed => code == ErrorFailed
    case SubAck => false
    case Publish(t, p) => s.wf.Requesting? && |t| + |p| > 640 && code == ErrorOutOfMemory
    case Trigger(a) =>
      || (s.wf.Connect? && !a.userName.Success? && code == a.userName)
      || (s.wf.Connect? && a.userName.Success? && !a.token && code == ErrorTokenGenerationFailed)
      || (s.wf.Connect? && a.userName.Success? && a.token && !a.connect && code == ErrorServerError)
      || (s.wf.Subscribe? && !a.subscribe && code == ErrorSubscribeFailed)
      || (s.wf.Request? && !(a.topic && a.payload) && code == ErrorFailed)
      || (s.wf.Request? && a.topic && a.payload && !a.publish && code == ErrorPublishFailed)
      || (s.wf.Response? && (s.topicLen == 0 || s.payloadLen == 0) && code == ErrorInvalidResponse)
      || (s.wf.Response? && s.topicLen > 0 && s.payloadLen > 0 &&
          match parse(s.Topic(), s.Payload())
          case NoMatch => false
          case Malformed(_) => code == ErrorFailed
          case Parsed(r) => (r.status.Failed? || r.status.Disabled?) && code == ErrorServerError)
  }

  /** What moves a workflow on to the next state. */
  ghost predicate MovesOn(parse: Parser, s: State, ev: Event)
    requires s.Fits()
  {
    match ev
    case LoopFailed => false
    case SubAck => !s.wf.Response?
    case Publish(t, p) => s.wf.Requesting? && |t| + |p| <= 640
    case Trigger(a) =>
      || (s.wf.Connect? && a.userName.Success? && a.token && a.connect)
      || (s.wf.Subscribe? && a.subscribe)
      || (s.wf.Request? && a.topic && a.payload && a.publish)
      || (s.wf.Waiting? && a.now > s.retryAfter)
      || (s.wf.Response? && s.topicLen > 0 && s.payloadLen > 0 &&
          match parse(s.Topic(), s.Payload())
          case Parsed(r) => r.status.Unassigned? || r.status.Assigning?
          case _ => false)
  }

  /** A step of a workflow that is under way moves on, completes with an error or with success, or
      leaves everything as it is, each exactly for its causes. */
  lemma StepByCause(parse: Parser, s: State, ev: Event)
    requires s.Fits() && !s.wf.Init? && !s.wf.Complete?
    ensures var r := Step(parse, s, ev);
            && (MovesOn(parse, s, ev) <==> r.wf == Successor(s.wf))
            && (MovesOn(parse, s, ev) ==> r.last == if s.wf.Response? then ErrorPending else Success)
            && (forall code: AzureResult | !code.Success? ::
                  FailsWith(parse, s, ev, code) <==> r.wf.Complete? && r.last == code)
            && (Succeeded(r) <==> ParsesAssigned(parse, s, ev) || (ev.SubAck? && s.wf.Response?))
            && (r.wf == s.wf ==> r == s)
  {
  }

  /** What a step does to the registration and the deadline: only parsing a response writes the one, and
      only that and leaving WAITING by the clock write the other. */
  lemma StepStores(parse: Parser, s: State, ev: Event)
    requires s.Fits()
    ensures var r := Step(parse, s, ev);
            && (!(ev.Trigger? && s.wf.Response?) ==> r.reg == s.reg)
            && (!(ev.Trigger? && (s.wf.Response? || s.wf.Waiting?)) ==> r.retryAfter == s.retryAfter)
            && (ev.Trigger? && s.wf.Waiting? ==>
                  r.retryAfter == if ev.attempt.now > s.retryAfter then 0 else s.retryAfter)
    ensures ev.Trigger? && s.wf.Response? && s.topicLen > 0 && s.payloadLen > 0 ==>
              var r, base := Step(parse, s, ev), s.topicLen;
              match parse(s.Topic(), s.Payload())
              case NoMatch => r == s
              case Malformed(left) => r.reg == left && r.retryAfter == s.retryAfter
              case Parsed(p) =>
                var pending := p.status.Unassigned? || p.status.Assigning?;
                var delay := if pending && p.retryAfterSeconds == 0 then 3 else p.retryAfterSeconds;
                && r.reg.operationId == Span(base + p.operationId.at, p.operationId.len)
                && r.reg.hostname == Span(base + p.hostname.at, p.hostname.len)
                && r.reg.deviceId == Span(base + p.deviceId.at, p.deviceId.len)
                && r.reg.status == p.status && r.reg.extendedError == p.extendedError
                && r.reg.retryAfterSeconds == delay
                && r.retryAfter == if pending then (ev.attempt.now + delay as nat) % CLOCK_RANGE else s.retryAfter
  {
  }

  /** The call of a step, whether or not it succeeds: only a trigger in CONNECT, SUBSCRIBE or REQUEST makes
      one, once what the call needs is there. */
  lemma CallsByCause(s: State, ev: Event)
    requires s.Fits() && s.reg.operationId.at + s.reg.operationId.len <= |s.buf|
    ensures var id := s.buf[s.reg.operationId.at..s.reg.operationId.at + s.reg.operationId.len];
            Calls(s, ev)
            == if ev.Trigger? && s.wf.Connect? && ev.attempt.userName.Success? && ev.attempt.token then [ConnectCall]
               else if ev.Trigger? && s.wf.Subscribe? then [SubscribeCall]
               else if ev.Trigger? && s.wf.Request? && ev.attempt.topic && ev.attempt.payload then
                 [PublishCall(if s.payloadLen == 0 then Register else Query(id))]
               else []
  {
  }

  /** A completed workflow keeps everything but its result, which a SUBACK or a failed loop replaces. */
  lemma CompleteStep(parse: Parser, s: State, ev: Event)
    requires s.Fits() && s.wf.Complete?
    ensures Step(parse, s, ev)
         == s.(last := if ev.SubAck? then Success else if ev.LoopFailed? then ErrorFailed else s.last)
  {
  }

  // ----- The shape of a run -----

  function Successor(wf: Workflow): Workflow {
    match wf
    case Init => Connect
    case Connect => Subscribe
    case Subscribe => Subscribing
    case Subscribing => Request
    case Request => Requesting
    case Requesting => Response
    case Response => Waiting
    case Waiting => Request
    case Complete => Complete
  }

  function Phase(wf: Workflow): nat {
    match wf
    case Init => 0
    case Connect => 1
    case Subscribe => 2
    case Subscribing => 3
    case Complete => 5
    case _ => 4
  }

  /** A step stays, moves on to the one successor, or completes; COMPLETE is never left. */
  lemma StepShape(parse: Parser, s: State, ev: Event)
    requires s.Fits()
    ensures var wf' := Step(parse, s, ev).wf;
            && (wf' == s.wf || wf' == Successor(s.wf) || wf'.Complete?)
            && Phase(s.wf) <= Phase(wf')
            && (s.wf.Complete? ==> wf'.Complete?)
    ensures Calls(s, ev) != [] ==> Step(parse, s, ev).wf != s.wf
  {
  }

  lemma {:induction false} PhasesGrow(parse: Parser, states: seq<State>, evs: seq<Event>, i: nat, j: nat)
    requires IsRun(parse, states, evs) && i <= j < |states|
    ensures Phase(states[i].wf) <= Phase(states[j].wf)
    decreases j - i
  {
    if i < j {
      StepShape(parse, states[i], evs[i]);
      PhasesGrow(parse, states, evs, i + 1, j);
    }
  }

  /** In every run there is at most one connect and at most one subscribe call. */
  lemma OneConnectOneSubscribe(parse: Parser, states: seq<State>, evs: seq<Event>, i: nat, j: nat)
    requires IsRun(parse, states, evs) && i < j < |evs|
    ensures !(Calls(states[i], evs[i]) == Calls(states[j], evs[j]) == [ConnectCall])
    ensures !(Calls(states[i], evs[i]) == Calls(states[j], evs[j]) == [SubscribeCall])
  {
    StepShape(parse, states[i], evs[i]);
    PhasesGrow(parse, states, evs, i + 1, j);
  }

  /** The states a registration passes through; only the polling cycle repeats. */
  function Path(pos: nat): Workflow {
    match pos
    case 0 => Connect
    case 1 => Subscribe
    case 2 => Subscribing
    case _ =>
      match (pos - 3) % 4
      case 0 => Request
      case 1 => Requesting
      case 2 => Response
      case _ => Waiting
  }

  lemma PathAdvances(pos: nat)
    ensures Path(pos + 1) == Successor(Path(pos))
  {
  }

  /** Every run moves along the path CONNECT, SUBSCRIBE, SUBSCRIBING, (REQUEST, REQUESTING, RESPONSE,
      WAITING)*, one position at a time, until it completes for good. */
  lemma RunShape(parse: Parser, states: seq<State>, evs: seq<Event>) returns (pos: seq<nat>)
    requires IsRun(parse, states, evs)
    ensures |pos| == |states| && pos[0] == 0
    ensures forall i, j | 0 <= i < |evs| && j == i + 1 :: pos[i] <= pos[j] <= pos[i] + 1
    ensures forall i | 0 <= i < |states| :: states[i].wf.Complete? || states[i].wf == Path(pos[i])
    ensures forall i, j | 0 <= i <= j < |states| :: states[i].wf.Complete? ==> states[j].wf.Complete?
  {
    pos := [0];
    while |pos| < |states|
      invariant 1 <= |pos| <= |states| && pos[0] == 0
      invariant forall i, j | 0 <= i < |pos| - 1 && j == i + 1 :: pos[i] <= pos[j] <= pos[i] + 1
      invariant forall i | 0 <= i < |pos| :: states[i].wf.Complete? || states[i].wf == Path(pos[i])
      invariant forall i, j | 0 <= i <= j < |pos| :: states[i].wf.Complete? ==> states[j].wf.Complete?
    {
      var n := |pos| - 1;
      StepShape(parse, states[n], evs[n]);
      PathAdvances(pos[n]);
      pos := pos + [if states[n + 1].wf == states[n].wf then pos[n] else pos[n] + 1];
    }
  }

  // ----- What every state of a run satisfies -----

  /** The buffer holds a response that was parsed as still pending, and `reg` is that response. */
  ghost predicate HoldsPending(parse: Parser, s: State)
    requires s.Fits()
  {
    && s.topicLen > 0 && s.payloadLen > 0
    && parse(s.Topic(), s.Payload()).Parsed?
    && var r := parse(s.Topic(), s.Payload()).response;
       && (r.status.Unassigned? || r.status.Assigning?)
       && s.reg == Rebase(r, s.topicLen).(retryAfterSeconds := s.reg.retryAfterSeconds)
       && s.reg.retryAfterSeconds == if r.retryAfterSeconds == 0 then 3 else r.retryAfterSeconds
  }

  ghost predicate Inv(parse: Parser, s: State)
    requires s.Fits()
  {
    match s.wf
    case Connect => s.payloadLen == 0
    case Subscribe => s.payloadLen == 0
    case Subscribing => s.payloadLen == 0
    case Request => s.payloadLen > 0 ==> HoldsPending(parse, s)
    case Requesting => s.payloadLen > 0 ==> HoldsPending(parse, s)
    case Waiting => HoldsPending(parse, s)
    case _ => true
  }

  /** Only an accepted PUBLISH writes the response buffer. */
  lemma BufferKept(parse: Parser, s: State, ev: Event)
    requires s.Fits() && !Accepts(s, ev)
    ensures var r := Step(parse, s, ev);
            && r.buf == s.buf && r.topicLen == s.topicLen && r.payloadLen == s.payloadLen
            && r.Topic() == s.Topic() && r.Payload() == s.Payload()
  {
  }

  lemma InvStep(parse: Parser, s: State, ev: Event)
    requires s.Fits() && Inv(parse, s) && !s.wf.Init?
    ensures Inv(parse, Step(parse, s, ev)) && !Step(parse, s, ev).wf.Init?
  {
    if !Accepts(s, ev) {
      BufferKept(parse, s, ev);
    }
  }

  lemma {:induction false} InvHolds(parse: Parser, states: seq<State>, evs: seq<Event>, i: nat)
    requires IsRun(parse, states, evs) && i < |states|
    ensures Inv(parse, states[i]) && !states[i].wf.Init?
  {
    if i > 0 {
      InvHolds(parse, states, evs, i - 1);
      InvStep(parse, states[i - 1], evs[i - 1]);
    }
  }

  // ----- The response buffer -----

  /** Event `k` is the last PUBLISH that was stored before state `i`. */
  ghost predicate LastStored(states: seq<State>, evs: seq<Event>, k: nat, i: nat)
    requires |states| == |evs| + 1 && i < |states|
  {
    && k < i
    && Accepts(states[k], evs[k])
    && forall m {:trigger evs[m]} | k < m < i :: !Accepts(states[m], evs[m])
  }

  lemma StoredContents(s: State, t: bytes, p: bytes)
    requires s.Fits() && |t| + |p| <= RESPONSE_MAX
    ensures Stored(s, t, p).Topic() == t && Stored(s, t, p).Payload() == p
  {
    var b := Write(s.buf, 0, t);
    ReadBack(s.buf, 0, t);
    ReadElsewhere(b, |t|, p, 0, |t|);
    ReadBack(b, |t|, p);
  }

  /** Whenever the buffer is in use, it holds exactly the topic and payload stored last. */
  lemma {:induction false} BufferIsLastStored(parse: Parser, states: seq<State>, evs: seq<Event>, i: nat)
    returns (k: nat)
    requires IsRun(parse, states, evs) && i < |states| && states[i].payloadLen > 0
    ensures LastStored(states, evs, k, i)
    ensures states[i].Topic() == evs[k].topic && states[i].Payload() == evs[k].payload
    ensures states[i].topicLen == |evs[k].topic|
  {
    var s, ev := states[i - 1], evs[i - 1];
    if Accepts(s, ev) {
      k := i - 1;
      StoredContents(s, ev.topic, ev.payload);
    } else {
      BufferKept(parse, s, ev);
      k := BufferIsLastStored(parse, states, evs, i - 1);
    }
  }

  /** A span of a payload, moved to where the payload stands in the buffer, keeps its bytes. */
  lemma RebasedBytes(s: State, span: Span)
    requires s.Fits() && span.at + span.len <= s.payloadLen
    ensures s.Bytes(Span(s.topicLen + span.at, span.len)) == Cut(s.Payload(), span)
  {
    assert s.Payload() == Cut(s.buf, Span(s.topicLen, s.payloadLen));
    SubCut(s.buf, Span(s.topicLen, s.payloadLen), span);
  }

  /** A stored registration that is an assigned response denotes that response's own bytes. */
  lemma AssignedBytes(parse: Parser, s: State, r: Registration)
    requires ParserContract(parse) && s.Fits() && parse(s.Topic(), s.Payload()) == Parsed(r)
    requires s.reg == Rebase(r, s.topicLen)
    ensures SpansWithin(r, s.payloadLen)
    ensures s.Bytes(s.reg.hostname) == Cut(s.Payload(), r.hostname)
    ensures s.Bytes(s.reg.deviceId) == Cut(s.Payload(), r.deviceId)
  {
    RebasedBytes(s, r.hostname);
    RebasedBytes(s, r.deviceId);
  }

  // ----- Safety over whole runs -----

  /** The run has been successful since event `k`, which either parsed an ASSIGNED response or was a
      SUBACK in RESPONSE or COMPLETE. */
  ghost predicate Origin(parse: Parser, states: seq<State>, evs: seq<Event>, k: nat, i: nat)
    requires |states| == |evs| + 1 && i < |states| && forall m | 0 <= m < |states| :: states[m].Fits()
  {
    && k < i && !Succeeded(states[k]) && (forall m | k < m <= i :: Succeeded(states[m]))
    && (if evs[k].SubAck? then states[k].wf.Response? || states[k].wf.Complete?
        else ParsesAssigned(parse, states[k], evs[k]))
  }

  lemma {:induction false} SuccessOrigin(parse: Parser, states: seq<State>, evs: seq<Event>, i: nat) returns (k: nat)
    requires IsRun(parse, states, evs) && i < |states| && Succeeded(states[i])
    ensures Origin(parse, states, evs, k, i) && states[i] == Step(parse, states[k], evs[k])
  {
    var s, ev := states[i - 1], evs[i - 1];
    SuccessStep(parse, s, ev);
    if Succeeded(s) {
      k := SuccessOrigin(parse, states, evs, i - 1);
    } else {
      k := i - 1;
    }
  }

  /** The last PUBLISH stored before state `i` parses as `r`, which the service assigned, and the host
      name and device id that the client's spans denote are that response's own bytes. */
  ghost predicate HasAssignment(parse: Parser, states: seq<State>, evs: seq<Event>, i: nat, k: nat, r: Registration)
    requires |states| == |evs| + 1 && i < |states|
  {
    && LastStored(states, evs, k, i)
    && parse(evs[k].topic, evs[k].payload) == Parsed(r) && r.status.Assigned? && SpansWithin(r, |evs[k].payload|)
    && states[i].reg == Rebase(r, |evs[k].topic|)
    && states[i].Bytes(states[i].reg.hostname) == Cut(evs[k].payload, r.hostname)
    && states[i].Bytes(states[i].reg.deviceId) == Cut(evs[k].payload, r.deviceId)
  }

  /** COMPLETE with success comes from a response that the service assigned, or from a SUBACK in
      RESPONSE or COMPLETE, and then no response was parsed: the registration is the one from before. */
  lemma SuccessIsAssigned(parse: Parser, states: seq<State>, evs: seq<Event>, i: nat)
    returns (origin: nat, k: nat, r: Registration)
    requires ParserContract(parse) && IsRun(parse, states, evs) && i < |states| && Succeeded(states[i])
    ensures Origin(parse, states, evs, origin, i)
    ensures if evs[origin].SubAck? then states[i] == Update(states[origin], Success)
            else HasAssignment(parse, states, evs, i, k, r)
    ensures SubAcksAvoid(states, evs, 0, i, {Response, Complete}) ==> !evs[origin].SubAck?
  {
    var s := states[i];
    origin := SuccessOrigin(parse, states, evs, i);
    k, r := 0, s.reg;
    if !evs[origin].SubAck? {
      BufferKept(parse, states[origin], evs[origin]);
      k := BufferIsLastStored(parse, states, evs, i);
      r := parse(s.Topic(), s.Payload()).response;
      AssignedBytes(parse, s, r);
    }
  }

  predicate Publishes(s: State, ev: Event) {
    |Calls(s, ev)| == 1 && Calls(s, ev)[0].PublishCall?
  }

  /** Whether something has been published can be read off the state. */
  predicate HasPublished(s: State) {
    s.wf.Requesting? || s.wf.Response? || s.wf.Waiting? || (s.wf.Request? && s.payloadLen > 0)
  }

  /** Without a SUBACK in REQUEST, publishing is the only way on from there. */
  lemma PublishStep(parse: Parser, s: State, ev: Event)
    requires s.Fits() && Inv(parse, s) && !s.wf.Init? && !Step(parse, s, ev).wf.Complete?
    ensures HasPublished(s) || Publishes(s, ev) ==> HasPublished(Step(parse, s, ev))
    ensures HasPublished(Step(parse, s, ev)) ==> HasPublished(s) || Publishes(s, ev) || (ev.SubAck? && s.wf.Request?)
  {
  }

  ghost predicate PublishedBefore(states: seq<State>, evs: seq<Event>, i: nat)
    requires |states| == |evs| + 1 && i < |states|
  {
    exists j :: 0 <= j < i && Publishes(states[j], evs[j])
  }

  lemma PublishedBeforeStep(states: seq<State>, evs: seq<Event>, i: nat)
    requires |states| == |evs| + 1 && i < |evs|
    ensures PublishedBefore(states, evs, i + 1)
       <==> PublishedBefore(states, evs, i) || Publishes(states[i], evs[i])
  {
  }

  lemma {:induction false} PublishedShowsInState(parse: Parser, states: seq<State>, evs: seq<Event>, i: nat)
    requires IsRun(parse, states, evs) && i < |states| && !states[i].wf.Complete?
    ensures PublishedBefore(states, evs, i) ==> HasPublished(states[i])
    ensures SubAcksAvoid(states, evs, 0, i, {Request}) && HasPublished(states[i]) ==> PublishedBefore(states, evs, i)
  {
    if i > 0 {
      var s, ev := states[i - 1], evs[i - 1];
      StepShape(parse, s, ev);
      InvHolds(parse, states, evs, i - 1);
      PublishStep(parse, s, ev);
      PublishedShowsInState(parse, states, evs, i - 1);
      PublishedBeforeStep(states, evs, i - 1);
    }
  }

  /** The registration is never published after another publish. The first publish is the registration
      unless a SUBACK arrived in REQUEST and took its place. */
  lemma RegisterThenQueries(parse: Parser, states: seq<State>, evs: seq<Event>, i: nat)
    requires IsRun(parse, states, evs) && i < |evs| && Publishes(states[i], evs[i])
    ensures var registers := Calls(states[i], evs[i])[0].topic.Register?;
            && (registers ==> !PublishedBefore(states, evs, i))
            && (!registers && !PublishedBefore(states, evs, i) ==> !SubAcksAvoid(states, evs, 0, i, {Request}))
  {
    PublishedShowsInState(parse, states, evs, i);
  }

  /** A query asks for the operation of the response stored last, which was parsed as pending: the
      span kept since then still denotes that response's operation id. */
  lemma QueryIsForLastResponse(parse: Parser, states: seq<State>, evs: seq<Event>, i: nat)
    returns (k: nat, r: Registration)
    requires ParserContract(parse) && IsRun(parse, states, evs)
    requires i < |evs| && Publishes(states[i], evs[i]) && Calls(states[i], evs[i])[0].topic.Query?
    ensures LastStored(states, evs, k, i)
    ensures parse(evs[k].topic, evs[k].payload) == Parsed(r) && !OperationComplete(r.status)
    ensures SpansWithin(r, |evs[k].payload|)
    ensures Calls(states[i], evs[i])[0].topic.operationId == Cut(evs[k].payload, r.operationId)
  {
    var s := states[i];
    InvHolds(parse, states, evs, i);
    k := BufferIsLastStored(parse, states, evs, i);
    r := parse(s.Topic(), s.Payload()).response;
    RebasedBytes(s, r.operationId);
  }

  // ----- The polling gate -----

  /** A response parsed as pending, which asks for `retry` seconds; zero stands for three. */
  predicate PollsAt(parse: Parser, s: State, ev: Event, retry: uint32)
    requires s.Fits()
  {
    && ev.Trigger? && s.wf.Response? && s.topicLen > 0 && s.payloadLen > 0
    && parse(s.Topic(), s.Payload()).Parsed?
    && var r := parse(s.Topic(), s.Payload()).response;
       && (r.status.Unassigned? || r.status.Assigning?)
       && retry == if r.retryAfterSeconds == 0 then 3 else r.retryAfterSeconds
  }

  /** From WAITING, REQUEST is reached only through a trigger whose clock is past the deadline, or
      through a SUBACK. */
  lemma {:induction false} GateFrom(parse: Parser, states: seq<State>, evs: seq<Event>, i: nat, j: nat)
    returns (k: nat)
    requires IsRun(parse, states, evs) && i < j < |states|
    requires states[i].wf.Waiting? && states[j].wf.Request?
    ensures i <= k < j && states[k].wf.Waiting?
    ensures evs[k].SubAck? || (evs[k].Trigger? && evs[k].attempt.now > states[i].retryAfter)
    decreases j - i
  {
    StepShape(parse, states[i], evs[i]);
    if states[i + 1].wf.Request? {
      k := i;
    } else if states[i + 1].wf.Complete? {
      PhasesGrow(parse, states, evs, i + 1, j);
      assert false;
    } else {
      k := GateFrom(parse, states, evs, i + 1, j);
    }
  }

  /** Between a pending response and any later publish the clock was read strictly after the time of
      parsing plus the retry delay, which is at least one second, in 64 bits; or a SUBACK arrived in
      WAITING. */
  lemma PollingGate(parse: Parser, states: seq<State>, evs: seq<Event>, i: nat, j: nat, retry: uint32)
    returns (k: nat)
    requires IsRun(parse, states, evs) && i < j < |evs|
    requires PollsAt(parse, states[i], evs[i], retry) && Publishes(states[j], evs[j])
    ensures i < k < j && retry >= 1 && states[k].wf.Waiting?
    ensures || evs[k].SubAck?
            || (evs[k].Trigger? && evs[k].attempt.now > (evs[i].attempt.now + retry as nat) % CLOCK_RANGE)
    ensures SubAcksAvoid(states, evs, i, j, {Waiting}) ==> evs[k].Trigger?
  {
    assert states[i + 1].wf.Waiting?;
    assert states[i + 1].retryAfter == (evs[i].attempt.now + retry as nat) % CLOCK_RANGE;
    k := GateFrom(parse, states, evs, i + 1, j);
  }

  /** A stored pending response is kept while only early triggers and PUBLISH packets come. */
  lemma {:induction false} WaitingKept(parse: Parser, states: seq<State>, evs: seq<Event>, i: nat, j: nat)
    requires IsRun(parse, states, evs) && i <= j < |states| && states[i].wf.Waiting?
    requires forall m {:trigger evs[m]} | i <= m < j ::
               evs[m].Publish? || (evs[m].Trigger? && evs[m].attempt.now <= states[i].retryAfter)
    ensures states[j] == states[i]
    decreases j - i
  {
    if i < j {
      assert states[i + 1] == Step(parse, states[i], evs[i]) == states[i];
      WaitingKept(parse, states, evs, i + 1, j);
    }
  }

  /** So is a request that is due. */
  lemma {:induction false} RequestKept(parse: Parser, states: seq<State>, evs: seq<Event>, i: nat, j: nat)
    requires IsRun(parse, states, evs) && i <= j < |states| && states[i].wf.Request?
    requires forall m {:trigger evs[m]} | i <= m < j :: evs[m].Publish?
    ensures states[j] == states[i]
    decreases j - i
  {
    if i < j {
      assert states[i + 1] == Step(parse, states[i], evs[i]) == states[i];
      RequestKept(parse, states, evs, i + 1, j);
    }
  }

  /** Only triggers before the deadline and PUBLISH packets from event `i` up to event `j`. */
  ghost predicate Undisturbed(evs: seq<Event>, i: nat, j: nat, deadline: nat)
    requires j <= |evs|
  {
    forall m {:trigger evs[m]} | i <= m < j ::
      evs[m].Publish? || (evs[m].Trigger? && evs[m].attempt.now <= deadline)
  }

  /** The converse of the gate: the first trigger whose clock is past the deadline leaves WAITING. */
  lemma DeadlineReached(parse: Parser, states: seq<State>, evs: seq<Event>, i: nat, j: nat, retry: uint32)
    requires IsRun(parse, states, evs) && i < j < |evs| && PollsAt(parse, states[i], evs[i], retry)
    requires var deadline := (evs[i].attempt.now + retry as nat) % CLOCK_RANGE;
             Undisturbed(evs, i + 1, j, deadline) && evs[j].Trigger? && evs[j].attempt.now > deadline
    ensures forall m | i < m <= j :: states[m].wf.Waiting?
    ensures states[j + 1] == states[i + 1].(wf := Request, last := Success, retryAfter := 0)
  {
    assert states[i + 1].wf.Waiting?;
    assert states[i + 1].retryAfter == (evs[i].attempt.now + retry as nat) % CLOCK_RANGE;
    forall m | i < m <= j ensures states[m] == states[i + 1] {
      WaitingKept(parse, states, evs, i + 1, m);
    }
    assert states[j + 1] == Step(parse, states[j], evs[j]);
  }

  /** Polling goes on: after the deadline the next trigger whose calls succeed publishes the query for the
      operation of the pending response. */
  lemma PendingIsPolled(parse: Parser, states: seq<State>, evs: seq<Event>, i: nat, j: nat, k: nat, retry: uint32)
    requires ParserContract(parse) && IsRun(parse, states, evs) && i < j < k < |evs|
    requires PollsAt(parse, states[i], evs[i], retry)
    requires var deadline := (evs[i].attempt.now + retry as nat) % CLOCK_RANGE;
             Undisturbed(evs, i + 1, j, deadline) && evs[j].Trigger? && evs[j].attempt.now > deadline
    requires forall m {:trigger evs[m]} | j < m < k :: evs[m].Publish?
    requires evs[k].Trigger? && evs[k].attempt.topic && evs[k].attempt.payload && evs[k].attempt.publish
    ensures var s := states[i];
            var r := parse(s.Topic(), s.Payload()).response;
            && SpansWithin(r, s.payloadLen)
            && Calls(states[k], evs[k]) == [PublishCall(Query(Cut(s.Payload(), r.operationId)))]
            && states[k + 1].wf.Requesting?
  {
    var s := states[i];
    DeadlineReached(parse, states, evs, i, j, retry);
    RequestKept(parse, states, evs, j + 1, k);
    BufferKept(parse, s, evs[i]);
    RebasedBytes(states[i + 1], parse(s.Topic(), s.Payload()).response.operationId);
    assert states[k].reg == states[i + 1].reg && states[k].buf == states[i + 1].buf;
  }

  // ----- The calls of a whole run -----

  /** Connect, then subscribe, then the registration, then queries only. */
  predicate InOrder(calls: seq<Call>) {
    && (|calls| > 0 ==> calls[0] == ConnectCall)
    && (|calls| > 1 ==> calls[1] == SubscribeCall)
    && (|calls| > 2 ==> calls[2] == PublishCall(Register))
    && (forall i | 3 <= i < |calls| :: calls[i].PublishCall? && calls[i].topic.Query?)
  }

  /** How many calls have been made can be read off the state, until the run completes. */
  predicate Made(s: State, n: nat) {
    match s.wf
    case Connect => n == 0
    case Subscribe => n == 1
    case Subscribing => n == 2
    case Request => if s.payloadLen == 0 then n == 2 else n > 2
    case Complete => true
    case _ => n > 2
  }

  lemma CallsStep(parse: Parser, s: State, ev: Event, calls: seq<Call>)
    requires s.Fits() && Inv(parse, s) && !s.wf.Init? && Made(s, |calls|) && InOrder(calls)
    requires ev.SubAck? ==> s.wf !in {Connect, Subscribe, Request}
    ensures InOrder(calls + Calls(s, ev)) && Made(Step(parse, s, ev), |calls + Calls(s, ev)|)
  {
  }

  /** The calls of a run in which no SUBACK takes the place of a call. */
  lemma {:induction false} CallsInOrder(parse: Parser, states: seq<State>, evs: seq<Event>, n: nat)
    requires IsRun(parse, states, evs) && n <= |evs|
    requires SubAcksAvoid(states, evs, 0, n, {Connect, Subscribe, Request})
    ensures InOrder(CallsOf(states, evs, n)) && Made(states[n], |CallsOf(states, evs, n)|)
  {
    if n > 0 {
      InvHolds(parse, states, evs, n - 1);
      CallsInOrder(parse, states, evs, n - 1);
      CallsStep(parse, states[n - 1], evs[n - 1], CallsOf(states, evs, n - 1));
    }
  }

  // ----- Fixed points -----

  ghost predicate Unmatched(parse: Parser, s: State)
    requires s.Fits()
  {
    s.wf.Response? && s.topicLen > 0 && s.payloadLen > 0 && parse(s.Topic(), s.Payload()).NoMatch?
  }

  lemma FixedStep(parse: Parser, s: State, ev: Event)
    requires s.Fits() && (Unmatched(parse, s) || s.wf.Complete?) && (ev.Trigger? || ev.Publish?)
    ensures Step(parse, s, ev) == s && Calls(s, ev) == []
  {
  }

  /** A stored response on another topic is parsed again for ever, and a success or failure is kept:
      no number of triggers and PUBLISH packets changes either state. */
  lemma {:induction false} FixedPoint(parse: Parser, states: seq<State>, evs: seq<Event>, i: nat, j: nat)
    requires IsRun(parse, states, evs) && i <= j < |states|
    requires Unmatched(parse, states[i]) || states[i].wf.Complete?
    requires forall m {:trigger evs[m]} | i <= m < j :: evs[m].Trigger? || evs[m].Publish?
    ensures states[j] == states[i]
    ensures forall m {:trigger evs[m]} | i <= m < j :: Calls(states[m], evs[m]) == []
    decreases j - i
  {
    if i < j {
      FixedStep(parse, states[i], evs[i]);
      FixedPoint(parse, states, evs, i + 1, j);
    }
  }

  // ----- Stray SUBACKs -----

  /** A SUBACK that arrives outside SUBSCRIBING advances the machine like any success: here three of
      them complete a registration with success although no PUBLISH ever arrived. */
  lemma StraySubAcksComplete(parse: Parser, s: State, a: Attempt)
    requires Initial(s) && ConnectResult(a).Success? && a.subscribe && RequestResult(a).Success?
    ensures var evs := [Trigger(a), Trigger(a), SubAck, Trigger(a), SubAck, SubAck];
            exists states :: IsRun(parse, states, evs) && Succeeded(states[6]) && Origin(parse, states, evs, 5, 6)
  {
    var evs := [Trigger(a), Trigger(a), SubAck, Trigger(a), SubAck, SubAck];
    var s1 := Step(parse, s, evs[0]);
    var s2 := Step(parse, s1, evs[1]);
    var s3 := Step(parse, s2, evs[2]);
    var s4 := Step(parse, s3, evs[3]);
    var s5 := Step(parse, s4, evs[4]);
    var s6 := Step(parse, s5, evs[5]);
    var states := [s, s1, s2, s3, s4, s5, s6];
    assert IsRun(parse, states, evs);
  }
}
