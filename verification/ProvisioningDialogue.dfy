/** What a registration promises when everything goes well: the whole dialogue with the service, from the
    connect to the assigned response, through any number of responses that are still pending. */
module ProvisioningDialogue {
  import opened Common
  import opened ProvisioningSpec

  /** A response of the service, the clock when it is parsed, and the clock when it is asked about. */
  datatype Answer = Answer(topic: bytes, payload: bytes, parsedAt: nat, polledAt: nat)

  /** A trigger all of whose calls succeed. */
  function Fine(now: nat): Event { Trigger(Attempt(Success, true, true, true, true, true, true, now)) }

  predicate Fitting(a: Answer) { a.topic != [] && a.payload != [] && |a.topic| + |a.payload| <= RESPONSE_MAX }

  /** A pending response, asked about after the delay it asks for, or after three seconds. */
  ghost predicate Pending(parse: Parser, a: Answer) {
    && Fitting(a) && parse(a.topic, a.payload).Parsed?
    && var r := parse(a.topic, a.payload).response;
       var delay := if r.retryAfterSeconds == 0 then 3 else r.retryAfterSeconds;
       (r.status.Unassigned? || r.status.Assigning?) && a.polledAt > (a.parsedAt + delay as nat) % CLOCK_RANGE
  }

  ghost predicate Final(parse: Parser, a: Answer) {
    && Fitting(a) && parse(a.topic, a.payload).Parsed? && parse(a.topic, a.payload).response.status.Assigned?
  }

  const OPENING: seq<Event> := [Fine(0), Fine(0), SubAck]

  /** Publish, response, parsing: three events of a round trip. */
  function Asked(a: Answer): seq<Event> { [Fine(0), Publish(a.topic, a.payload), Fine(a.parsedAt)] }

  function Polls(answers: seq<Answer>): seq<Event> {
    if answers == [] then [] else Asked(answers[0]) + [Fine(answers[0].polledAt)] + Polls(answers[1..])
  }

  function Dialogue(answers: seq<Answer>, last: Answer): seq<Event> { OPENING + Polls(answers) + Asked(last) }

  /** The MQTT calls that these events cause from `s` on. */
  function CallsFrom(parse: Parser, s: State, evs: seq<Event>): seq<Call>
    requires s.Fits()
    decreases |evs|
  {
    if evs == [] then [] else Calls(s, evs[0]) + CallsFrom(parse, Step(parse, s, evs[0]), evs[1..])
  }

  lemma {:induction false} CallsAppend(parse: Parser, s: State, a: seq<Event>, b: seq<Event>)
    requires s.Fits()
    ensures CallsFrom(parse, s, a + b) == CallsFrom(parse, s, a) + CallsFrom(parse, After(parse, s, a), b)
    decreases |a|
  {
    if a == [] {
      assert a + b == b;
    } else {
      assert (a + b)[1..] == a[1..] + b;
      CallsAppend(parse, Step(parse, s, a[0]), a[1..], b);
    }
  }

  lemma OneEvent(parse: Parser, s: State, ev: Event)
    requires s.Fits()
    ensures After(parse, s, [ev]) == Step(parse, s, ev) && CallsFrom(parse, s, [ev]) == Calls(s, ev)
  {
    AfterOne(parse, s, ev);
    assert [ev][1..] == [];
    assert CallsFrom(parse, Step(parse, s, ev), []) == [];
  }

  lemma FirstEvent(parse: Parser, s: State, ev: Event, rest: seq<Event>)
    requires s.Fits()
    ensures After(parse, s, [ev] + rest) == After(parse, Step(parse, s, ev), rest)
    ensures CallsFrom(parse, s, [ev] + rest) == Calls(s, ev) + CallsFrom(parse, Step(parse, s, ev), rest)
  {
    OneEvent(parse, s, ev);
    AfterAppend(parse, s, [ev], rest);
    CallsAppend(parse, s, [ev], rest);
  }

  lemma ThreeEvents(parse: Parser, s: State, a: Event, b: Event, c: Event)
    requires s.Fits()
    ensures var t := Step(parse, s, a);
            var u := Step(parse, t, b);
            && After(parse, s, [a, b, c]) == Step(parse, u, c)
            && CallsFrom(parse, s, [a, b, c]) == Calls(s, a) + (Calls(t, b) + Calls(u, c))
  {
    var t := Step(parse, s, a);
    assert [a, b, c] == [a] + [b, c] && [b, c] == [b] + [c];
    FirstEvent(parse, s, a, [b, c]);
    FirstEvent(parse, t, b, [c]);
    OneEvent(parse, Step(parse, t, b), c);
  }

  /** What is published next. */
  function NextTopic(s: State): Topic {
    if s.payloadLen == 0 then Register else Query(s.Bytes(s.reg.operationId))
  }

  /** The client has read this response, and its spans denote the response's own bytes. */
  ghost predicate HasRead(parse: Parser, s: State, a: Answer)
    requires s.Fits()
  {
    && parse(a.topic, a.payload).Parsed? && SpansWithin(parse(a.topic, a.payload).response, |a.payload|)
    && s.payloadLen > 0
    && var r := parse(a.topic, a.payload).response;
       && s.Bytes(s.reg.operationId) == Cut(a.payload, r.operationId)
       && s.Bytes(s.reg.hostname) == Cut(a.payload, r.hostname)
       && s.Bytes(s.reg.deviceId) == Cut(a.payload, r.deviceId)
  }

  /** The buffer holds this response and nothing has been parsed yet. */
  predicate Holds(s: State, a: Answer)
    requires s.Fits()
  {
    && s.wf.Response? && s.topicLen == |a.topic| && s.payloadLen == |a.payload|
    && s.Topic() == a.topic && s.Payload() == a.payload
  }

  /** The publish and the response to it. */
  lemma AskStep(parse: Parser, s: State, a: Answer)
    requires s.Fits() && s.wf.Request? && Fitting(a)
    ensures var t := Step(parse, s, Fine(0));
            && Calls(s, Fine(0)) == [PublishCall(NextTopic(s))]
            && Holds(Step(parse, t, Publish(a.topic, a.payload)), a)
  {
    StoredContents(Step(parse, s, Fine(0)), a.topic, a.payload);
  }

  /** Spans of the response that have been moved to where it stands in the buffer. */
  lemma SpansRead(parse: Parser, t: State, a: Answer)
    requires ParserContract(parse) && t.Fits() && a.payload != [] && parse(a.topic, a.payload).Parsed?
    requires t.payloadLen == |a.payload| && t.Payload() == a.payload
    requires var r := parse(a.topic, a.payload).response;
             && t.reg.operationId == Span(t.topicLen + r.operationId.at, r.operationId.len)
             && t.reg.hostname == Span(t.topicLen + r.hostname.at, r.hostname.len)
             && t.reg.deviceId == Span(t.topicLen + r.deviceId.at, r.deviceId.len)
    ensures HasRead(parse, t, a)
  {
    var r := parse(a.topic, a.payload).response;
    RebasedBytes(t, r.operationId);
    RebasedBytes(t, r.hostname);
    RebasedBytes(t, r.deviceId);
  }

  /** The trigger that parses it. */
  lemma ReadStep(parse: Parser, s: State, a: Answer)
    requires ParserContract(parse) && s.Fits() && Holds(s, a) && Fitting(a) && (Pending(parse, a) || Final(parse, a))
    ensures var t := Step(parse, s, Fine(a.parsedAt));
            && HasRead(parse, t, a)
            && (Final(parse, a) ==> Succeeded(t))
            && (Pending(parse, a) ==> t.wf.Waiting? && a.polledAt > t.retryAfter)
  {
    BufferKept(parse, s, Fine(a.parsedAt));
    StepStores(parse, s, Fine(a.parsedAt));
    SpansRead(parse, Step(parse, s, Fine(a.parsedAt)), a);
  }

  /** One round trip: publish, store the response and parse it. */
  lemma RoundTrip(parse: Parser, s: State, a: Answer)
    requires ParserContract(parse) && s.Fits() && s.wf.Request? && (Pending(parse, a) || Final(parse, a))
    ensures var t := After(parse, s, Asked(a));
            && CallsFrom(parse, s, Asked(a)) == [PublishCall(NextTopic(s))] && HasRead(parse, t, a)
            && (Final(parse, a) ==> Succeeded(t))
            && (Pending(parse, a) ==> t.wf.Waiting? && a.polledAt > t.retryAfter)
  {
    var asked := Step(parse, s, Fine(0));
    var stored := Step(parse, asked, Publish(a.topic, a.payload));
    AskStep(parse, s, a);
    ReadStep(parse, stored, a);
    ThreeEvents(parse, s, Fine(0), Publish(a.topic, a.payload), Fine(a.parsedAt));
    assert Calls(asked, Publish(a.topic, a.payload)) == Calls(stored, Fine(a.parsedAt)) == [];
  }

  /** The registration, and then a query for the operation of each pending response but the last. */
  function Published(parse: Parser, first: Topic, answers: seq<Answer>): seq<Call>
    requires forall a | a in answers :: HasOperation(parse, a)
    decreases |answers|
  {
    if answers == [] then []
    else [PublishCall(first)] + Published(parse, OperationOf(parse, answers[0]), answers[1..])
  }

  predicate HasOperation(parse: Parser, a: Answer) {
    parse(a.topic, a.payload).Parsed? && SpansWithin(parse(a.topic, a.payload).response, |a.payload|)
  }

  function OperationOf(parse: Parser, a: Answer): Topic
    requires HasOperation(parse, a)
  {
    Query(Cut(a.payload, parse(a.topic, a.payload).response.operationId))
  }

  /** One pending response, and the trigger after its deadline. */
  lemma PendingRound(parse: Parser, s: State, a: Answer) returns (t: State)
    requires ParserContract(parse) && s.Fits() && s.wf.Request? && Pending(parse, a)
    ensures HasOperation(parse, a) && t.Fits() && t.wf.Request? && NextTopic(t) == OperationOf(parse, a)
    ensures var evs := Asked(a) + [Fine(a.polledAt)];
            t == After(parse, s, evs) && CallsFrom(parse, s, evs) == [PublishCall(NextTopic(s))]
  {
    var read := After(parse, s, Asked(a));
    RoundTrip(parse, s, a);
    t := Step(parse, read, Fine(a.polledAt));
    OneEvent(parse, read, Fine(a.polledAt));
    AfterAppend(parse, s, Asked(a), [Fine(a.polledAt)]);
    CallsAppend(parse, s, Asked(a), [Fine(a.polledAt)]);
  }

  lemma {:induction false} PollsRun(parse: Parser, s: State, answers: seq<Answer>, last: Answer)
    requires ParserContract(parse) && s.Fits() && s.wf.Request? && Final(parse, last)
    requires forall a | a in answers :: Pending(parse, a)
    ensures forall a | a in answers + [last] :: HasOperation(parse, a)
    ensures var evs := Polls(answers) + Asked(last);
            && Succeeded(After(parse, s, evs)) && HasRead(parse, After(parse, s, evs), last)
            && CallsFrom(parse, s, evs) == Published(parse, NextTopic(s), answers + [last])
    decreases |answers|
  {
    if answers == [] {
      RoundTrip(parse, s, last);
      assert Polls(answers) + Asked(last) == Asked(last) && answers + [last] == [last] && [last][1..] == [];
    } else {
      var t := PendingRound(parse, s, answers[0]);
      PollsRun(parse, t, answers[1..], last);
      var first, rest := Asked(answers[0]) + [Fine(answers[0].polledAt)], Polls(answers[1..]) + Asked(last);
      assert Polls(answers) + Asked(last) == first + rest;
      AfterAppend(parse, s, first, rest);
      CallsAppend(parse, s, first, rest);
      assert (answers + [last])[1..] == answers[1..] + [last];
    }
  }

  /** The whole registration succeeds with the bytes of the assigned response, whatever number of pending
      responses came before it, and makes exactly these calls: connect, subscribe, the registration, and
      a query for the operation of each pending response. */
  lemma RegistrationSucceeds(parse: Parser, s: State, answers: seq<Answer>, last: Answer)
    requires ParserContract(parse) && Initial(s) && Final(parse, last)
    requires forall a | a in answers :: Pending(parse, a)
    ensures forall a | a in answers + [last] :: HasOperation(parse, a)
    ensures var t := After(parse, s, Dialogue(answers, last));
            && Succeeded(t) && HasRead(parse, t, last)
            && CallsFrom(parse, s, Dialogue(answers, last))
               == [ConnectCall, SubscribeCall] + Published(parse, Register, answers + [last])
  {
    var evs := Polls(answers) + Asked(last);
    ThreeEvents(parse, s, Fine(0), Fine(0), SubAck);
    var t := After(parse, s, OPENING);
    PollsRun(parse, t, answers, last);
    assert Dialogue(answers, last) == OPENING + evs;
    AfterAppend(parse, s, OPENING, evs);
    CallsAppend(parse, s, OPENING, evs);
  }
}
