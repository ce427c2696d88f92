/** The provisioning client itself: an object whose fields are updated in place, and which keeps a
    ghost trace of everything that has happened to it. */
module ProvisioningClient {
  import opened Common
  import opened ProvisioningSpec
  import opened WaitBudget

  const LOOP_INTERVAL_MS: uint32 := 500

  /** What the environment does in one round of the polling loop: the outcomes of the calls a trigger
      may make, the packets that `AzureIoTMQTT_ProcessLoop` then delivers, and its result. */
  datatype Round = Round(attempt: Attempt, packets: seq<Packet>, loopOk: bool)

  type Packet = ev: Event | ev.SubAck? || ev.Publish? witness SubAck

  /** What follows the trigger in a round. */
  function LoopEvents(packets: seq<Packet>, loopOk: bool): seq<Event> {
    packets + (if loopOk then [] else [LoopFailed])
  }

  /** The events of one round that starts in `s`. */
  function RoundEvents(parse: Parser, s: State, round: Round): seq<Event>
    requires s.Fits()
  {
    var trigger := Trigger(round.attempt);
    if Step(parse, s, trigger).wf.Complete? then [trigger]
    else [trigger] + LoopEvents(round.packets, round.loopOk)
  }

  /** A round is its trigger and then, unless that completes the workflow, the loop. */
  lemma RoundTaken(parse: Parser, s: State, round: Round, before: seq<Event>)
    requires s.Fits()
    ensures var trigger, rest := Trigger(round.attempt), LoopEvents(round.packets, round.loopOk);
            var events, next := RoundEvents(parse, s, round), Step(parse, s, trigger);
            && After(parse, s, events) == (if next.wf.Complete? then next else After(parse, next, rest))
            && before + events == before + [trigger] + (if next.wf.Complete? then [] else rest)
  {
    var trigger, rest := Trigger(round.attempt), LoopEvents(round.packets, round.loopOk);
    AfterFirst(parse, s, trigger, []);
    AfterFirst(parse, s, trigger, rest);
    EventsRegrouped(before, [trigger], rest);
  }

  lemma EventsRegrouped(a: seq<Event>, b: seq<Event>, c: seq<Event>)
    ensures a + (b + c) == a + b + c && a + b + [] == a + b
  {
  }

  /** What is left of a timeout after one wait. */
  function Left(timeout: uint32): uint32 {
    if timeout > LOOP_INTERVAL_MS then timeout - LOOP_INTERVAL_MS else 0
  }

  /** Whether a round that starts in `s` leaves the loop. */
  predicate Ends(parse: Parser, s: State, round: Round)
    requires s.Fits()
  {
    Step(parse, s, Trigger(round.attempt)).wf.Complete? || !round.loopOk
  }

  /** All events of a call with this timeout, from round `i` of the environment on. */
  function Play(parse: Parser, s: State, env: nat -> Round, i: nat, timeout: uint32): seq<Event>
    requires s.Fits()
    decreases timeout, 1
  {
    if s.wf.Complete? then [] else PlayOn(parse, s, env, i, timeout)
  }

  /** The events of a round and of the rounds after it. */
  function PlayOn(parse: Parser, s: State, env: nat -> Round, i: nat, timeout: uint32): seq<Event>
    requires s.Fits()
    decreases timeout, 0
  {
    var evs := RoundEvents(parse, s, env(i));
    evs + (if Ends(parse, s, env(i)) || Left(timeout) == 0 then []
           else Play(parse, After(parse, s, evs), env, i + 1, Left(timeout)))
  }

  /** A round, and then what is left of the timeout. */
  lemma PlayRound(parse: Parser, s: State, env: nat -> Round, i: nat, timeout: uint32, before: seq<Event>)
    requires s.Fits() && !s.wf.Complete?
    ensures var events, left := RoundEvents(parse, s, env(i)), Left(timeout);
            before + Play(parse, s, env, i, timeout)
            == before + events + (if Ends(parse, s, env(i)) || left == 0 then []
                                  else Play(parse, After(parse, s, events), env, i + 1, left))
  {
    var events, left := RoundEvents(parse, s, env(i)), Left(timeout);
    var rest := if Ends(parse, s, env(i)) || left == 0 then []
                else Play(parse, After(parse, s, events), env, i + 1, left);
    assert Play(parse, s, env, i, timeout) == PlayOn(parse, s, env, i, timeout) == events + rest;
    assert before + (events + rest) == before + events + rest;
  }

  // ----- The rounds of a call, spelled out -----

  /** The triggers, packets and failed loops of `n` rounds from round `first` on. */
  function RoundsOf(env: nat -> Round, first: nat, n: nat): seq<Event>
    decreases n
  {
    if n == 0 then []
    else
      [Trigger(env(first).attempt)] + env(first).packets + (if env(first).loopOk then [] else [LoopFailed])
      + RoundsOf(env, first + 1, n - 1)
  }

  /** From `s`, `n` whole rounds from round `first` on, and possibly one more trigger that completes the
      workflow, lead to `t`: each round starts under way, is not completed by its trigger, and only the
      last loop may fail. */
  ghost predicate RoundsLead(parse: Parser, s: State, env: nat -> Round, first: nat, n: nat, cut: bool, t: State)
    requires s.Fits()
    decreases n
  {
    var next := Step(parse, s, Trigger(env(first).attempt));
    if n == 0 && !cut then t == s
    else if n == 0 then !s.wf.Complete? && next.wf.Complete? && t == next
    else
      && !s.wf.Complete? && !next.wf.Complete? && (n > 1 || cut ==> env(first).loopOk)
      && RoundsLead(parse, After(parse, s, RoundsOf(env, first, 1)), env, first + 1, n - 1, cut, t)
  }

  /** The events of `n` whole rounds, and possibly of one more trigger. */
  function EventsOf(env: nat -> Round, first: nat, n: nat, cut: bool): seq<Event> {
    RoundsOf(env, first, n) + (if cut then [Trigger(env(first + n).attempt)] else [])
  }

  /** A call plays the rounds of its environment, all their packets included, as many as the timeout pays
      for, and stops before that only when the workflow is complete. */
  lemma {:induction false} PlayIsRounds(parse: Parser, s: State, env: nat -> Round, i: nat, timeout: uint32)
    returns (n: nat, cut: bool, t: State)
    requires s.Fits() && !s.wf.Init?
    ensures Play(parse, s, env, i, timeout) == EventsOf(env, i, n, cut)
    ensures RoundsLead(parse, s, env, i, n, cut, t)
    ensures n + (if cut then 1 else 0) <= |Waits(timeout, LOOP_INTERVAL_MS)|
    ensures t.wf.Complete? || n == |Waits(timeout, LOOP_INTERVAL_MS)|
    decreases timeout, 1
  {
    n, cut, t := 0, false, s;
    if !s.wf.Complete? {
      PlayFirst(parse, s, env, i, timeout);
      if Step(parse, s, Trigger(env(i).attempt)).wf.Complete? {
        cut, t := true, Step(parse, s, Trigger(env(i).attempt));
      } else if !env(i).loopOk || Left(timeout) == 0 {
        n, t := 1, After(parse, s, RoundsOf(env, i, 1));
      } else {
        n, cut, t := PlayRest(parse, s, env, i, timeout);
        OneRoundMore(parse, s, env, i, n - 1, cut, t);
      }
    }
  }

  lemma {:induction false} PlayRest(parse: Parser, s: State, env: nat -> Round, i: nat, timeout: uint32)
    returns (n: nat, cut: bool, t: State)
    requires s.Fits() && !s.wf.Init? && Left(timeout) > 0
    requires Play(parse, s, env, i, timeout)
          == RoundsOf(env, i, 1) + Play(parse, After(parse, s, RoundsOf(env, i, 1)), env, i + 1, Left(timeout))
    ensures Play(parse, s, env, i, timeout) == EventsOf(env, i, n, cut)
    ensures n > 0 && RoundsLead(parse, After(parse, s, RoundsOf(env, i, 1)), env, i + 1, n - 1, cut, t)
    ensures n + (if cut then 1 else 0) <= |Waits(timeout, LOOP_INTERVAL_MS)|
    ensures t.wf.Complete? || n == |Waits(timeout, LOOP_INTERVAL_MS)|
    decreases timeout, 0
  {
    NeverInit(parse, s, RoundsOf(env, i, 1));
    var m;
    m, cut, t := PlayIsRounds(parse, After(parse, s, RoundsOf(env, i, 1)), env, i + 1, Left(timeout));
    n := m + 1;
    EventsFirst(env, i, m, cut);
  }

  lemma OneRoundMore(parse: Parser, s: State, env: nat -> Round, i: nat, m: nat, cut: bool, t: State)
    requires s.Fits() && !s.wf.Complete? && !Step(parse, s, Trigger(env(i).attempt)).wf.Complete? && env(i).loopOk
    requires RoundsLead(parse, After(parse, s, RoundsOf(env, i, 1)), env, i + 1, m, cut, t)
    ensures RoundsLead(parse, s, env, i, m + 1, cut, t)
  {
  }

  lemma EventsFirst(env: nat -> Round, i: nat, m: nat, cut: bool)
    ensures EventsOf(env, i, m + 1, cut) == RoundsOf(env, i, 1) + EventsOf(env, i + 1, m, cut)
  {
    var round := [Trigger(env(i).attempt)] + env(i).packets + (if env(i).loopOk then [] else [LoopFailed]);
    assert RoundsOf(env, i + 1, 0) == [] && round + [] == round;
    assert RoundsOf(env, i, m + 1) == RoundsOf(env, i, 1) + RoundsOf(env, i + 1, m);
    var last := if cut then [Trigger(env(i + m + 1).attempt)] else [];
    EventsRegrouped(RoundsOf(env, i, 1), RoundsOf(env, i + 1, m), last);
  }

  /** The first round of a call, and what follows it. */
  lemma PlayFirst(parse: Parser, s: State, env: nat -> Round, i: nat, timeout: uint32)
    requires s.Fits() && !s.wf.Init? && !s.wf.Complete?
    ensures RoundsOf(env, i, 0) == []
    ensures var next := After(parse, s, RoundsOf(env, i, 1));
            if Step(parse, s, Trigger(env(i).attempt)).wf.Complete?
            then Play(parse, s, env, i, timeout) == [Trigger(env(i).attempt)]
            else && (!env(i).loopOk ==> next.wf.Complete?)
                 && Play(parse, s, env, i, timeout)
                    == RoundsOf(env, i, 1) + (if !env(i).loopOk || Left(timeout) == 0 then []
                                              else Play(parse, next, env, i + 1, Left(timeout)))
  {
    assert Play(parse, s, env, i, timeout) == PlayOn(parse, s, env, i, timeout);
    if !Step(parse, s, Trigger(env(i).attempt)).wf.Complete? {
      assert RoundsOf(env, i + 1, 0) == [];
      assert RoundEvents(parse, s, env(i)) == RoundsOf(env, i, 1);
      if !env(i).loopOk {
        FailedRound(parse, s, env, i);
      }
    }
  }

  /** A failed loop completes the workflow. */
  lemma FailedRound(parse: Parser, s: State, env: nat -> Round, i: nat)
    requires s.Fits() && !s.wf.Init? && !env(i).loopOk
    ensures After(parse, s, RoundsOf(env, i, 1)).wf.Complete?
  {
    var before := [Trigger(env(i).attempt)] + env(i).packets;
    assert RoundsOf(env, i, 1) == before + [LoopFailed] by {
      assert RoundsOf(env, i + 1, 0) == [];
    }
    AfterAppend(parse, s, before, [LoopFailed]);
    AfterOne(parse, After(parse, s, before), LoopFailed);
    NeverInit(parse, s, before);
  }

  lemma {:induction false} NeverInit(parse: Parser, s: State, evs: seq<Event>)
    requires s.Fits() && !s.wf.Init?
    ensures !After(parse, s, evs).wf.Init?
    decreases |evs|
  {
    if evs != [] {
      NeverInit(parse, Step(parse, s, evs[0]), evs[1..]);
    }
  }

  /** A timeout pays for one round every half second begun, and for at least one. */
  lemma WorkflowRounds(timeout: uint32)
    ensures var rounds := |Waits(timeout, LOOP_INTERVAL_MS)|;
            if timeout == 0 then rounds == 1 else (rounds - 1) * 500 < timeout as int <= rounds * 500
  {
    WaitsAreExact(timeout, LOOP_INTERVAL_MS);
  }

  /** The number of triggers among some events: one for each round played. */
  function Triggers(evs: seq<Event>): nat {
    if evs == [] then 0 else (if evs[0].Trigger? then 1 else 0) + Triggers(evs[1..])
  }

  lemma {:induction false} TriggersAppend(a: seq<Event>, b: seq<Event>)
    ensures Triggers(a + b) == Triggers(a) + Triggers(b)
  {
    if a == [] {
      assert a + b == b;
    } else {
      assert (a + b)[1..] == a[1..] + b;
      TriggersAppend(a[1..], b);
    }
  }

  lemma {:induction false} NoTriggers(evs: seq<Event>)
    requires forall ev | ev in evs :: !ev.Trigger?
    ensures Triggers(evs) == 0
  {
    if evs != [] {
      NoTriggers(evs[1..]);
    }
  }

  /** A round has exactly one trigger. */
  lemma OneTrigger(parse: Parser, s: State, round: Round, before: seq<Event>)
    requires s.Fits()
    ensures Triggers(before + RoundEvents(parse, s, round)) == Triggers(before) + 1
  {
    var trigger := Trigger(round.attempt);
    var rest := if Step(parse, s, trigger).wf.Complete? then []
                else LoopEvents(round.packets, round.loopOk);
    NoTriggers(rest);
    assert RoundEvents(parse, s, round) == [trigger] + rest;
    assert [trigger][1..] == [];
    TriggersAppend([trigger], rest);
    TriggersAppend(before, [trigger] + rest);
  }

  /** The bytes that a span of the response denotes; `stray` is what memory outside it would yield. */
  function Denoted(buf: bytes, s: Span, stray: nat -> byte): (r: bytes)
    ensures |r| == s.len
  {
    if s.at + s.len <= |buf| then Cut(buf, s) else seq(s.len, i requires 0 <= i < s.len => stray(s.at + i))
  }

  class Client {
    const parse: Parser
    var wf: Workflow
    var last: AzureResult
    var retryAfter: nat
    const response: array<byte>
    var topicLen: nat
    var payloadLen: nat
    var reg: Registration
    /** The MQTT calls made so far. */
    var calls: seq<Call>
    ghost var states: seq<State>
    ghost var evs: seq<Event>

    /** The fields after the `memset` of `AzureIoTProvisioningClient_Init`. */
    constructor (parse: Parser)
      ensures Valid() && wf.Init? && evs == [] && calls == [] && fresh(response) && this.parse == parse
    {
      this.parse := parse;
      wf, last, retryAfter, topicLen, payloadLen := Init, Success, 0, 0, 0;
      var none := Span(0, 0);
      reg := Registration(none, none, none, Unassigned, 0, 0);
      response := new byte[RESPONSE_MAX](_ => 0);
      states, evs, calls := [], [], [];
    }

    function Abs(): State
      reads this, response
    {
      State(wf, last, retryAfter, response[..], topicLen, payloadLen, reg)
    }

    ghost predicate Traced()
      reads this, response
    {
      && IsRun(parse, states, evs)
      && states[|evs|] == Abs()
      && calls == CallsOf(states, evs, |evs|)
    }

    ghost predicate Valid()
      reads this, response
    {
      && Abs().Fits()
      && (if wf.Init? then topicLen == 0 && payloadLen == 0 && evs == [] && states == [] && calls == [] else Traced())
    }

    /** Appends the event that has just been handled to the trace. */
    ghost method Record(ev: Event)
      requires |states| == |evs| + 1 && IsRun(parse, states, evs)
      requires Abs().Fits() && Abs() == Step(parse, states[|evs|], ev)
      requires calls == CallsOf(states, evs, |evs|) + Calls(states[|evs|], ev)
      modifies this`states, this`evs
      ensures Traced() && evs == old(evs) + [ev] && states == old(states) + [Abs()]
    {
      RunExtended(parse, states, evs, Abs(), ev);
      CallsOfLonger(states, evs, Abs(), ev, |evs|);
      states, evs := states + [Abs()], evs + [ev];
    }

    /** `prvProvClientUpdateState`. */
    method UpdateState(result: AzureResult)
      modifies this`wf, this`last
      ensures Abs() == Update(old(Abs()), result)
    {
      last := result;
      match wf {
        case Connect => wf := if result.Success? then Subscribe else Complete;
        case Subscribe => wf := if result.Success? then Subscribing else Complete;
        case Subscribing => wf := if result.Success? then Request else Complete;
        case Request => wf := if result.Success? then Requesting else Complete;
        case Requesting => wf := if result.Success? then Response else Complete;
        case Response => wf := if result.ErrorPending? then Waiting else Complete;
        case Waiting => wf := if result.Success? then Request else Complete;
        case Complete =>
        case Init =>
      }
    }

    /** `prvProvClientParseResponse`. */
    method ParseResponse(now: nat)
      requires Abs().Fits() && wf.Response?
      modifies this`wf, this`last, this`reg, this`retryAfter
      ensures Abs() == ProvisioningSpec.ParseResponse(parse, old(Abs()), now)
    {
      if topicLen == 0 || payloadLen == 0 {
        UpdateState(ErrorInvalidResponse);
        return;
      }
      match parse(response[..topicLen], response[topicLen..topicLen + payloadLen]) {
        case NoMatch =>
        case Malformed(left) =>
          reg := left;
          UpdateState(ErrorFailed);
        case Parsed(r) =>
          reg := Rebase(r, topicLen);
          if OperationComplete(reg.status) {
            if reg.status.Assigned? {
              UpdateState(Success);
            } else {
              UpdateState(ErrorServerError);
            }
          } else {
            if reg.retryAfterSeconds == 0 {
              reg := reg.(retryAfterSeconds := POLLING_INTERVAL_S);
            }
            retryAfter := (now + reg.retryAfterSeconds as nat) % CLOCK_RANGE;
            UpdateState(ErrorPending);
          }
      }
    }

    /** `prvProvClientConnect`. */
    method ConnectAction(a: Attempt)
      requires wf.Connect?
      modifies this`wf, this`last, this`calls
      ensures Abs() == Update(old(Abs()), ConnectResult(a))
      ensures calls == old(calls) + Calls(old(Abs()), Trigger(a))
    {
      if !a.userName.Success? {
        UpdateState(a.userName);
      } else if !a.token {
        UpdateState(ErrorTokenGenerationFailed);
      } else {
        calls := calls + [ConnectCall];
        UpdateState(if a.connect then Success else ErrorServerError);
      }
    }

    /** `prvProvClientSubscribe`. */
    method SubscribeAction(a: Attempt)
      requires wf.Subscribe?
      modifies this`wf, this`last, this`calls
      ensures Abs() == Update(old(Abs()), if a.subscribe then Success else ErrorSubscribeFailed)
      ensures calls == old(calls) + Calls(old(Abs()), Trigger(a))
    {
      calls := calls + [SubscribeCall];
      UpdateState(if a.subscribe then Success else ErrorSubscribeFailed);
    }

    /** `prvProvClientRequest`. */
    method RequestAction(a: Attempt)
      requires wf.Request?
      modifies this`wf, this`last, this`calls
      ensures Abs() == Update(old(Abs()), RequestResult(a))
      ensures calls == old(calls) + Calls(old(Abs()), Trigger(a))
    {
      var topic := Topic.Register;
      if payloadLen != 0 {
        var id := reg.operationId;
        topic := Query(if id.at + id.len <= response.Length then response[id.at..id.at + id.len] else []);
      }
      if !a.topic || !a.payload {
        UpdateState(ErrorFailed);
        return;
      }
      calls := calls + [PublishCall(topic)];
      UpdateState(if a.publish then Success else ErrorPublishFailed);
    }

    /** The dispatch of `prvProvClientTriggerAction`. */
    method Act(a: Attempt)
      requires Abs().Fits()
      modifies this`wf, this`last, this`reg, this`retryAfter, this`calls
      ensures Abs() == Step(parse, old(Abs()), Trigger(a))
      ensures calls == old(calls) + Calls(old(Abs()), Trigger(a))
    {
      match wf {
        case Connect => ConnectAction(a);
        case Subscribe => SubscribeAction(a);
        case Request => RequestAction(a);
        case Response => ParseResponse(a.now);
        case Waiting =>
          if a.now > retryAfter {
            retryAfter := 0;
            UpdateState(Success);
          }
        case _ =>
      }
    }

    /** `prvProvClientTriggerAction`. */
    method TriggerAction(a: Attempt)
      requires Valid() && !wf.Init?
      modifies this
      ensures Valid() && !wf.Init?
      ensures Abs() == Step(parse, old(Abs()), Trigger(a)) && evs == old(evs) + [Trigger(a)] && old(states) <= states
      ensures calls == old(calls) + Calls(old(Abs()), Trigger(a))
    {
      Act(a);
      Record(Trigger(a));
    }

    /** What `prvProvClientEventCallback` does with the two packet types it handles. */
    method Receive(packet: Packet)
      requires Abs().Fits()
      modifies this`wf, this`last, this`topicLen, this`payloadLen, response
      ensures Abs() == Step(parse, old(Abs()), packet)
    {
      match packet {
        case SubAck => UpdateState(Success);
        case Publish(topic, payload) =>
          if wf.Requesting? {
            if |payload| + |topic| <= RESPONSE_MAX {
              topicLen := |topic|;
              Store(response, 0, topic);
              payloadLen := |payload|;
              Store(response, topicLen, payload);
              UpdateState(Success);
            } else {
              UpdateState(ErrorOutOfMemory);
            }
          }
      }
    }

    /** `prvProvClientEventCallback`. */
    method EventCallback(packet: Packet)
      requires Valid() && !wf.Init?
      modifies this, response
      ensures Valid() && !wf.Init?
      ensures Abs() == Step(parse, old(Abs()), packet) && evs == old(evs) + [packet] && old(states) <= states
      ensures calls == old(calls)
    {
      Receive(packet);
      Record(packet);
    }

    /** `AzureIoTMQTT_ProcessLoop`: delivers the packets that arrive during one wait. */
    method ProcessLoop(packets: seq<Packet>)
      requires Valid() && !wf.Init?
      modifies this, response
      ensures Valid() && !wf.Init?
      ensures Abs() == After(parse, old(Abs()), packets) && evs == old(evs) + packets && old(states) <= states
    {
      for i := 0 to |packets|
        invariant Valid() && !wf.Init? && old(states) <= states
        invariant After(parse, Abs(), packets[i..]) == After(parse, old(Abs()), packets)
        invariant evs == old(evs) + packets[..i]
      {
        assert packets[i..] == [packets[i]] + packets[i + 1..] && packets[..i + 1] == packets[..i] + [packets[i]];
        AfterFirst(parse, Abs(), packets[i], packets[i + 1..]);
        EventCallback(packets[i]);
      }
    }

    method FailLoop()
      requires Valid() && !wf.Init?
      modifies this`wf, this`last, this`states, this`evs
      ensures Valid() && wf.Complete? && old(states) <= states
      ensures Abs() == Step(parse, old(Abs()), LoopFailed) && evs == old(evs) + [LoopFailed]
    {
      UpdateState(ErrorFailed);
      Record(LoopFailed);
    }

    /** `AzureIoTMQTT_ProcessLoop` and the branch taken when it fails. */
    method RunLoop(packets: seq<Packet>, loopOk: bool)
      requires Valid() && !wf.Init?
      modifies this, response
      ensures Valid() && !wf.Init? && old(states) <= states
      ensures var events := LoopEvents(packets, loopOk);
              Abs() == After(parse, old(Abs()), events) && evs == old(evs) + events
      ensures !loopOk ==> wf.Complete?
    {
      ghost var s := Abs();
      ProcessLoop(packets);
      assert packets + [] == packets;
      if !loopOk {
        AfterOne(parse, Abs(), LoopFailed);
        AfterAppend(parse, s, packets, [LoopFailed]);
        FailLoop();
      }
    }

    /** One round of the polling loop; `ended` tells whether the loop is left. */
    method RunRound(round: Round) returns (ended: bool)
      requires Valid() && !wf.Init? && !wf.Complete?
      modifies this, response
      ensures Valid() && !wf.Init? && old(states) <= states
      ensures var events := RoundEvents(parse, old(Abs()), round);
              Abs() == After(parse, old(Abs()), events) && evs == old(evs) + events
      ensures Triggers(evs) == Triggers(old(evs)) + 1
      ensures ended == Ends(parse, old(Abs()), round)
      ensures ended ==> wf.Complete?
    {
      OneTrigger(parse, Abs(), round, evs);
      RoundTaken(parse, Abs(), round, evs);
      TriggerAction(round.attempt);
      if wf.Complete? {
        return true;
      }
      RunLoop(round.packets, round.loopOk);
      return !round.loopOk;
    }

    /** What an iteration of the polling loop does when the workflow is not complete. */
    method Iterate(env: nat -> Round, round: nat, rest: uint32) returns (wait: uint32, left: uint32, more: bool)
      requires Valid() && !wf.Init? && !wf.Complete?
      modifies this, response
      ensures Valid() && !wf.Init? && old(states) <= states && Triggers(evs) == Triggers(old(evs)) + 1
      ensures old(evs) + Play(parse, old(Abs()), env, round, rest)
           == evs + (if more then Play(parse, Abs(), env, round + 1, left) else [])
      ensures Waits(rest, LOOP_INTERVAL_MS) == [wait] + (if left == 0 then [] else Waits(left, LOOP_INTERVAL_MS))
      ensures more ==> 0 < left < rest
      ensures !more && !wf.Complete? ==> left == 0
    {
      ghost var s, before := Abs(), evs;
      wait, left := TakeWait(rest, LOOP_INTERVAL_MS);
      var ended := RunRound(env(round));
      more := !ended && left != 0;
      PlayRound(parse, s, env, round, rest, before);
    }

    /** `prvProvClientRunWorkflow`. `waits` has the time set apart in each round for the MQTT loop, which
        is not entered in a round whose trigger completes the workflow. */
    method RunWorkflow(env: nat -> Round, timeout: uint32) returns (r: AzureResult, waits: seq<uint32>)
      requires Valid() && !wf.Init?
      modifies this, response
      ensures Valid() && !wf.Init? && old(states) <= states
      ensures evs == old(evs) + Play(parse, old(Abs()), env, 0, timeout)
      ensures waits <= Waits(timeout, LOOP_INTERVAL_MS) && Triggers(evs) == Triggers(old(evs)) + |waits|
      ensures !wf.Complete? ==> waits == Waits(timeout, LOOP_INTERVAL_MS)
      ensures r == if wf.Complete? then last else ErrorPending
      ensures old(wf).Complete? ==> Abs() == old(Abs()) && evs == old(evs) && calls == old(calls) && waits == []
    {
      waits := [];
      var rest, round, more := timeout, 0, true;
      ghost var first := evs;
      ghost var todo, tail := Play(parse, Abs(), env, 0, timeout), Waits(timeout, LOOP_INTERVAL_MS);
      ghost var all := todo;
      while more
        invariant Valid() && !wf.Init? && old(states) <= states
        invariant first + all == evs + todo
        invariant todo == if more then Play(parse, Abs(), env, round, rest) else []
        invariant Waits(timeout, LOOP_INTERVAL_MS) == waits + tail && Triggers(evs) == Triggers(first) + |waits|
        invariant more ==> tail == Waits(rest, LOOP_INTERVAL_MS)
        invariant !more && !wf.Complete? ==> tail == []
        invariant old(wf).Complete? ==> Abs() == old(Abs()) && evs == first && calls == old(calls) && waits == []
        decreases more, rest
      {
        if wf.Complete? {
          more := false;
          todo := [];
        } else {
          var wait;
          wait, rest, more := Iterate(env, round, rest);
          round := round + 1;
          todo := if more then Play(parse, Abs(), env, round, rest) else [];
          tail := if rest == 0 then [] else Waits(rest, LOOP_INTERVAL_MS);
          Regroup(waits, wait, tail);
          waits := waits + [wait];
        }
      }
      r := if wf.Complete? then last else ErrorPending;
    }

    /** `AzureIoTProvisioningClient_Register`. */
    method Register(env: nat -> Round, timeout: uint32)
      returns (r: AzureResult, waits: seq<uint32>, ghost origin: nat)
      requires Valid()
      modifies this, response
      ensures Valid() && !wf.Init? && old(states) <= states
      ensures var s := if old(wf).Init? then old(Abs()).(wf := Connect) else old(Abs());
              evs == old(evs) + Play(parse, s, env, 0, timeout)
      ensures waits <= Waits(timeout, LOOP_INTERVAL_MS) && Triggers(evs) == Triggers(old(evs)) + |waits|
      ensures r == if wf.Complete? then last else ErrorPending
      ensures !wf.Complete? ==> waits == Waits(timeout, LOOP_INTERVAL_MS)
      ensures old(wf).Complete? ==>
                Abs() == old(Abs()) && evs == old(evs) && calls == old(calls) && waits == [] && r == old(last)
      ensures r.Success? ==> Origin(parse, states, evs, origin, |evs|)
      ensures r.Success? && !evs[origin].SubAck? ==> HoldsAssigned(parse, Abs())
      ensures r.Success? && SubAcksAvoid(states, evs, 0, |evs|, {Response, Complete}) ==> !evs[origin].SubAck?
    {
      if wf.Init? {
        wf := Connect;
        states := [Abs()];
      }
      r, waits := RunWorkflow(env, timeout);
      origin := 0;
      if r.Success? {
        origin := SuccessOrigin(parse, states, evs, |evs|);
        if !evs[origin].SubAck? {
          BufferKept(parse, states[origin], evs[origin]);
        }
      }
    }

    /** `AzureIoTProvisioningClient_GetDeviceAndHub`: on success both buffers start with the bytes that
        the registration denotes, and these are the bytes of the response that the service assigned
        unless the success came from a SUBACK. */
    method GetDeviceAndHub(hostname: array<byte>, hostnameSize: nat, deviceId: array<byte>, deviceIdSize: nat,
                           stray: nat -> byte)
      returns (r: AzureResult, hostnameLength: nat, deviceIdLength: nat,
               ghost origin: nat, ghost k: nat, ghost found: Registration)
      requires Valid() && ParserContract(parse)
      requires hostnameSize <= hostname.Length && deviceIdSize <= deviceId.Length
      requires hostname != deviceId && response != hostname && response != deviceId
      modifies hostname, deviceId
      ensures r.Success? <==> Succeeded(Abs()) && reg.hostname.len <= hostnameSize && reg.deviceId.len <= deviceIdSize
      ensures r.Success? ==>
                && hostnameLength == reg.hostname.len <= hostname.Length
                && deviceIdLength == reg.deviceId.len <= deviceId.Length
                && hostname[..] == Write(old(hostname[..]), 0, Denoted(response[..], reg.hostname, stray))
                && deviceId[..] == Write(old(deviceId[..]), 0, Denoted(response[..], reg.deviceId, stray))
      ensures r.Success? ==> !wf.Init? && Origin(parse, states, evs, origin, |evs|)
      ensures r.Success? && !evs[origin].SubAck? ==>
                && HasAssignment(parse, states, evs, |evs|, k, found)
                && Denoted(response[..], reg.hostname, stray) == Cut(evs[k].payload, found.hostname)
                && Denoted(response[..], reg.deviceId, stray) == Cut(evs[k].payload, found.deviceId)
      ensures r.Success? && SubAcksAvoid(states, evs, 0, |evs|, {Response, Complete}) ==> !evs[origin].SubAck?
      ensures !r.Success? ==>
                && hostname[..] == old(hostname[..]) && deviceId[..] == old(deviceId[..])
                && hostnameLength == hostnameSize && deviceIdLength == deviceIdSize
                && r == if wf.Complete? && !last.Success? then last else ErrorFailed
    {
      hostnameLength, deviceIdLength, origin, k, found := hostnameSize, deviceIdSize, 0, 0, reg;
      if !wf.Complete? {
        r := ErrorFailed;
        return;
      }
      if !last.Success? {
        r := last;
        return;
      }
      if hostnameSize < reg.hostname.len || deviceIdSize < reg.deviceId.len {
        r := ErrorFailed;
        return;
      }
      origin, k, found := SuccessIsAssigned(parse, states, evs, |evs|);
      Store(hostname, 0, Denoted(response[..], reg.hostname, stray));
      Store(deviceId, 0, Denoted(response[..], reg.deviceId, stray));
      r, hostnameLength, deviceIdLength := Success, reg.hostname.len, reg.deviceId.len;
    }
  }
}
