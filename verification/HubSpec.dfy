/** Subscriptions and message dispatch of the hub client (`source/azure_iot_hub_client.c`) on values:
    three receive contexts, matched to SUBACKs by packet id and to PUBLISH packets by topic. */
module HubSpec {
  import opened Common
  import opened RequestIds
  import opened WaitBudget

  datatype Feature = CloudToDevice | Commands | Properties

  const FEATURES: nat := 3

  function Index(f: Feature): nat {
    match f
    case CloudToDevice => 0
    case Commands => 1
    case Properties => 2
  }

  datatype Subscription = NotSubscribed | Subscribed | Acknowledged

  /** A function pointer, with the arm of the callback union it was stored through. */
  datatype Callback = Callback(arm: Feature, id: nat)

  /** A receive context; `handler` stands for the process function of a feature. */
  datatype Context = Context(
    state: Subscription, packetId: nat, handler: Option<Feature>, callback: Option<Callback>, argument: nat)

  const ZEROED := Context(NotSubscribed, 0, None, None, 0)

  type Contexts = s: seq<Context> | |s| == FEATURES witness [ZEROED, ZEROED, ZEROED]

  /** The topic parsers of the Azure SDK; a properties topic carries a request id, possibly empty. */
  datatype Topics = Topics(cloud: bytes -> bool, command: bytes -> bool, properties: bytes -> Option<bytes>)

  datatype Kind =
    | CloudMessage | CommandRequest
    | WritableProperties | ReportedResponse(id: uint32) | RequestedProperties(id: uint32)

  /** One invocation of a user callback. */
  datatype Delivery = Delivery(callback: Callback, argument: nat, kind: Kind, payload: bytes)

  datatype Packet = SubAck(id: nat) | Publish(topic: bytes, payload: bytes) | Other

  // ----- SUBACK -----

  /** The least index of a context with this packet id, or the number of contexts. */
  function OwnerFrom(ctxs: Contexts, id: nat, from: nat): (r: nat)
    requires from <= FEATURES
    ensures from <= r <= FEATURES
    ensures r < FEATURES ==> ctxs[r].packetId == id
    ensures forall i | from <= i < r :: ctxs[i].packetId != id
    decreases FEATURES - from
  {
    if from == FEATURES || ctxs[from].packetId == id then from else OwnerFrom(ctxs, id, from + 1)
  }

  function Acknowledge(ctxs: Contexts, id: nat): Contexts {
    var i := OwnerFrom(ctxs, id, 0);
    if i == FEATURES then ctxs else ctxs[i := ctxs[i].(state := Acknowledged)]
  }

  function AfterPackets(ctxs: Contexts, packets: seq<Packet>): Contexts
    decreases |packets|
  {
    if packets == [] then ctxs
    else
      var first := if packets[0].SubAck? then Acknowledge(ctxs, packets[0].id) else ctxs;
      AfterPackets(first, packets[1..])
  }

  predicate Live(c: Context) { c.handler.Some? }

  /** Zeroed contexts have packet id zero, live ones have different nonzero ids (section 2.3.1 of
      MQTT 3.1.1). */
  predicate DistinctIds(ctxs: Contexts) {
    && (forall i | 0 <= i < FEATURES :: Live(ctxs[i]) <==> ctxs[i].packetId != 0)
    && (forall i, j | 0 <= i < j < FEATURES && Live(ctxs[i]) && Live(ctxs[j]) :: ctxs[i].packetId != ctxs[j].packetId)
  }

  /** A SUBACK acknowledges the one live context that has its id, and changes nothing else. */
  lemma SubAckIsCorrelated(ctxs: Contexts, id: nat)
    requires DistinctIds(ctxs) && id != 0
    ensures forall i | 0 <= i < FEATURES ::
              Acknowledge(ctxs, id)[i] == if Live(ctxs[i]) && ctxs[i].packetId == id
                                          then ctxs[i].(state := Acknowledged) else ctxs[i]
    ensures DistinctIds(Acknowledge(ctxs, id))
  {
  }

  /** What packets leave alone in a context: everything but the subscription state. */
  predicate SameBinding(a: Context, b: Context) {
    a.(state := b.state) == b
  }

  lemma {:induction false} PacketsKeepBindings(ctxs: Contexts, packets: seq<Packet>)
    ensures forall i | 0 <= i < FEATURES :: SameBinding(ctxs[i], AfterPackets(ctxs, packets)[i])
    decreases |packets|
  {
    if packets != [] {
      var first := if packets[0].SubAck? then Acknowledge(ctxs, packets[0].id) else ctxs;
      PacketsKeepBindings(first, packets[1..]);
    }
  }

  /** Ids stay distinct through a subscription with a fresh packet id, whether it is kept or zeroed. */
  lemma DistinctIdsKept(ctxs: Contexts, i: nat, mine: Context, packets: seq<Packet>)
    requires DistinctIds(ctxs) && i < FEATURES && Live(mine) && mine.packetId != 0
    requires forall j | 0 <= j < FEATURES && j != i && Live(ctxs[j]) :: ctxs[j].packetId != mine.packetId
    ensures DistinctIds(AfterPackets(ctxs[i := mine], packets))
    ensures DistinctIds(AfterPackets(ctxs[i := mine], packets)[i := ZEROED])
  {
    PacketsKeepBindings(ctxs[i := mine], packets);
  }

  /** A waiting context is acknowledged exactly if a SUBACK with its id arrives, provided no context
      before it has the same id; otherwise that context takes the SUBACK. */
  lemma {:induction false} AcknowledgedIffReceived(ctxs: Contexts, packets: seq<Packet>, i: nat)
    requires i < FEATURES && ctxs[i].state.Subscribed?
    requires forall j | 0 <= j < i :: ctxs[j].packetId != ctxs[i].packetId
    ensures AfterPackets(ctxs, packets)[i].state.Acknowledged? <==> SubAck(ctxs[i].packetId) in packets
    decreases |packets|
  {
    if packets != [] {
      var first := if packets[0].SubAck? then Acknowledge(ctxs, packets[0].id) else ctxs;
      assert packets == [packets[0]] + packets[1..];
      if first[i].state.Subscribed? {
        AcknowledgedIffReceived(first, packets[1..], i);
      } else {
        AcknowledgedStays(first, packets[1..], i);
      }
    }
  }

  lemma {:induction false} AcknowledgedStays(ctxs: Contexts, packets: seq<Packet>, i: nat)
    requires i < FEATURES && ctxs[i].state.Acknowledged?
    ensures AfterPackets(ctxs, packets)[i].state.Acknowledged?
    decreases |packets|
  {
    if packets != [] {
      AcknowledgedStays(if packets[0].SubAck? then Acknowledge(ctxs, packets[0].id) else ctxs, packets[1..], i);
    }
  }

  /** A context behind another one with the same id is never acknowledged: the condition above is
      the exact one. */
  lemma {:induction false} ShadowedIsNeverAcknowledged(ctxs: Contexts, packets: seq<Packet>, i: nat, j: nat)
    requires j < i < FEATURES && ctxs[i].state.Subscribed? && ctxs[j].packetId == ctxs[i].packetId
    ensures AfterPackets(ctxs, packets)[i].state.Subscribed?
    decreases |packets|
  {
    if packets != [] {
      var first := if packets[0].SubAck? then Acknowledge(ctxs, packets[0].id) else ctxs;
      ShadowedIsNeverAcknowledged(first, packets[1..], i, j);
    }
  }

  // ----- Waiting for the SUBACK -----

  const SUBACK_INTERVAL_MS: uint32 := 10

  /** What one call of `AzureIoTMQTT_ProcessLoop` delivers, and its result. */
  datatype Round = Round(packets: seq<Packet>, ok: bool)

  /** What a wait takes from its environment; `failed` tells whether its last round failed. */
  datatype Wait = Wait(packets: seq<Packet>, rounds: nat, failed: bool)

  /** The wait of context `i` from round `round` on: it ends with the acknowledgement, with a round
      that fails, or with the timeout. */
  function PlayWait(ctxs: Contexts, i: nat, env: nat -> Round, round: nat, timeout: uint32): Wait
    requires i < FEATURES
    decreases timeout, 1
  {
    if ctxs[i].state.Acknowledged? then Wait([], 0, false)
    else
      var now, later := env(round), AfterRound(ctxs, i, env, round, timeout);
      Wait(now.packets + later.packets, 1 + later.rounds, later.failed)
  }

  /** What is left of the wait once round `round` has been played. */
  function AfterRound(ctxs: Contexts, i: nat, env: nat -> Round, round: nat, timeout: uint32): Wait
    requires i < FEATURES
    decreases timeout, 0
  {
    var now := env(round);
    if !now.ok || timeout <= SUBACK_INTERVAL_MS then Wait([], 0, !now.ok)
    else PlayWait(AfterPackets(ctxs, now.packets), i, env, round + 1, timeout - SUBACK_INTERVAL_MS)
  }

  /** A round, and then what is left of the wait; `before` and `n` are what the wait took before it. */
  lemma WaitRound(ctxs: Contexts, i: nat, env: nat -> Round, round: nat, timeout: uint32, before: seq<Packet>, n: nat)
    requires i < FEATURES && !ctxs[i].state.Acknowledged?
    ensures var w, later := PlayWait(ctxs, i, env, round, timeout), AfterRound(ctxs, i, env, round, timeout);
            Wait(before + w.packets, n + w.rounds, w.failed)
            == Wait(before + env(round).packets + later.packets, n + 1 + later.rounds, later.failed)
  {
    var packets, later := env(round).packets, AfterRound(ctxs, i, env, round, timeout);
    assert before + (packets + later.packets) == before + packets + later.packets;
  }

  /** The packets of `n` rounds from round `first` on. */
  function PacketsOf(env: nat -> Round, first: nat, n: nat): seq<Packet>
    decreases n
  {
    if n == 0 then [] else env(first).packets + PacketsOf(env, first + 1, n - 1)
  }

  /** Context `i` has been acknowledged after `n` rounds. */
  predicate AcknowledgedAfter(ctxs: Contexts, i: nat, env: nat -> Round, first: nat, n: nat)
    requires i < FEATURES
  {
    AfterPackets(ctxs, PacketsOf(env, first, n))[i].state.Acknowledged?
  }

  /** Round `k` of `n` is played: nothing ended the wait before it. */
  predicate WaitsOn(ctxs: Contexts, i: nat, env: nat -> Round, first: nat, k: nat, n: nat)
    requires i < FEATURES
  {
    !AcknowledgedAfter(ctxs, i, env, first, k) && (k + 1 < n ==> env(first + k).ok)
  }

  /** A timeout pays for one round every ten milliseconds begun, and for at least one. */
  lemma SubAckRounds(timeout: uint32)
    ensures var rounds := |Waits(timeout, SUBACK_INTERVAL_MS)|;
            if timeout == 0 then rounds == 1 else (rounds - 1) * 10 < timeout as int <= rounds * 10
  {
    WaitsAreExact(timeout, SUBACK_INTERVAL_MS);
  }

  /** A wait plays whole rounds of its environment until the acknowledgement, a failed round or the end
      of the timeout, whichever comes first, and it has failed exactly if its last round did. */
  lemma {:induction false} WaitIsExact(ctxs: Contexts, i: nat, env: nat -> Round, round: nat, timeout: uint32)
    requires i < FEATURES
    ensures var w := PlayWait(ctxs, i, env, round, timeout);
            && w.packets == PacketsOf(env, round, w.rounds)
            && w.rounds <= |Waits(timeout, SUBACK_INTERVAL_MS)|
            && (forall k | 0 <= k < w.rounds :: WaitsOn(ctxs, i, env, round, k, w.rounds))
            && (w.failed <==> w.rounds > 0 && !env(round + w.rounds - 1).ok)
            && (|| w.rounds == |Waits(timeout, SUBACK_INTERVAL_MS)| || w.failed
                || AcknowledgedAfter(ctxs, i, env, round, w.rounds))
    decreases timeout
  {
    var w, now := PlayWait(ctxs, i, env, round, timeout), env(round);
    assert PacketsOf(env, round, 0) == [];
    if !ctxs[i].state.Acknowledged? {
      assert PacketsOf(env, round + 1, 0) == [] && now.packets + [] == now.packets;
      assert WaitsOn(ctxs, i, env, round, 0, 1);
      if now.ok && timeout > SUBACK_INTERVAL_MS {
        var next, left := AfterPackets(ctxs, now.packets), timeout - SUBACK_INTERVAL_MS;
        WaitIsExact(next, i, env, round + 1, left);
        var later := PlayWait(next, i, env, round + 1, left);
        assert later == AfterRound(ctxs, i, env, round, timeout);
        RoundsShift(ctxs, next, i, env, round, round + 1, later.rounds, w.rounds);
      }
    }
  }

  lemma RoundsShift(ctxs: Contexts, next: Contexts, i: nat, env: nat -> Round, first: nat, second: nat, m: nat,
                    n: nat)
    requires i < FEATURES && second == first + 1 && n == m + 1 && next == AfterPackets(ctxs, env(first).packets)
    requires env(first).ok && !ctxs[i].state.Acknowledged?
    requires forall k | 0 <= k < m :: WaitsOn(next, i, env, second, k, m)
    ensures forall k | 0 <= k < n :: WaitsOn(ctxs, i, env, first, k, n)
    ensures AcknowledgedAfter(ctxs, i, env, first, n) <==> AcknowledgedAfter(next, i, env, second, m)
  {
    forall k | 0 <= k < n ensures WaitsOn(ctxs, i, env, first, k, n) {
      if k > 0 {
        assert WaitsOn(next, i, env, second, k - 1, m);
        PacketsShift(ctxs, next, env, first, second, k - 1);
      }
    }
    PacketsShift(ctxs, next, env, first, second, m);
  }

  lemma PacketsShift(ctxs: Contexts, next: Contexts, env: nat -> Round, first: nat, second: nat, k: nat)
    requires second == first + 1 && next == AfterPackets(ctxs, env(first).packets)
    ensures AfterPackets(ctxs, PacketsOf(env, first, k + 1)) == AfterPackets(next, PacketsOf(env, second, k))
  {
    AfterAppend(ctxs, env(first).packets, PacketsOf(env, second, k));
  }

  /** Round `n` fails, and before it no round failed and the context was not acknowledged. */
  ghost predicate FailsAt(ctxs: Contexts, i: nat, env: nat -> Round, first: nat, n: nat)
    requires i < FEATURES
  {
    n > 0 && !env(first + n - 1).ok && forall k | 0 <= k < n :: WaitsOn(ctxs, i, env, first, k, n)
  }

  ghost predicate SomeRoundFails(ctxs: Contexts, i: nat, env: nat -> Round, first: nat, rounds: nat)
    requires i < FEATURES
  {
    exists n | 0 < n <= rounds :: FailsAt(ctxs, i, env, first, n)
  }

  /** A wait has failed exactly if one of the rounds the timeout pays for fails before any other round
      has failed or acknowledged the context. */
  lemma WaitFails(ctxs: Contexts, i: nat, env: nat -> Round, round: nat, timeout: uint32)
    requires i < FEATURES
    ensures PlayWait(ctxs, i, env, round, timeout).failed
       <==> SomeRoundFails(ctxs, i, env, round, |Waits(timeout, SUBACK_INTERVAL_MS)|)
  {
    WaitIsExact(ctxs, i, env, round, timeout);
    var w := PlayWait(ctxs, i, env, round, timeout);
    if w.failed {
      assert FailsAt(ctxs, i, env, round, w.rounds);
    }
    if n :| 0 < n <= |Waits(timeout, SUBACK_INTERVAL_MS)| && FailsAt(ctxs, i, env, round, n) {
      if w.rounds < n {
        assert WaitsOn(ctxs, i, env, round, w.rounds, n);
      } else {
        assert WaitsOn(ctxs, i, env, round, n - 1, w.rounds);
      }
    }
  }

  /** Round `k` brings the SUBACK with this id, and no round from `first` up to it fails. */
  ghost predicate Arrives(env: nat -> Round, id: nat, first: nat, k: nat) {
    first <= k && SubAck(id) in env(k).packets && forall j {:trigger env(j)} | first <= j < k :: env(j).ok
  }

  /** That round is one of the `rounds` from `first` on. */
  ghost predicate Answered(env: nat -> Round, id: nat, first: nat, rounds: nat) {
    exists k: nat | k < first + rounds :: Arrives(env, id, first, k)
  }

  /** An unshadowed context ends up acknowledged exactly if its SUBACK arrives in a round that the
      timeout pays for and that no failed round precedes. */
  lemma {:induction false} HeardIffArrives(ctxs: Contexts, i: nat, env: nat -> Round, round: nat, timeout: uint32)
    requires i < FEATURES && ctxs[i].state.Subscribed?
    requires forall j | 0 <= j < i :: ctxs[j].packetId != ctxs[i].packetId
    ensures AfterPackets(ctxs, PlayWait(ctxs, i, env, round, timeout).packets)[i].state.Acknowledged?
       <==> Answered(env, ctxs[i].packetId, round, |Waits(timeout, SUBACK_INTERVAL_MS)|)
    decreases timeout
  {
    var now, id := env(round), ctxs[i].packetId;
    var next, later := AfterPackets(ctxs, now.packets), AfterRound(ctxs, i, env, round, timeout);
    assert PlayWait(ctxs, i, env, round, timeout).packets == now.packets + later.packets;
    AfterAppend(ctxs, now.packets, later.packets);
    AcknowledgedIffReceived(ctxs, now.packets, i);
    PacketsKeepBindings(ctxs, now.packets);
    if SubAck(id) in now.packets {
      AcknowledgedStays(next, later.packets, i);
      assert Arrives(env, id, round, round);
    } else if now.ok && timeout > SUBACK_INTERVAL_MS {
      NeverGoesBack(ctxs, now.packets, i);
      HeardIffArrives(next, i, env, round + 1, timeout - SUBACK_INTERVAL_MS);
      AnsweredLater(env, id, round, |Waits(timeout - SUBACK_INTERVAL_MS, SUBACK_INTERVAL_MS)|);
    }
  }

  lemma AnsweredLater(env: nat -> Round, id: nat, round: nat, rounds: nat)
    requires env(round).ok && SubAck(id) !in env(round).packets
    ensures Answered(env, id, round, 1 + rounds) <==> Answered(env, id, round + 1, rounds)
  {
    if Answered(env, id, round, 1 + rounds) {
      var k: nat :| k < round + 1 + rounds && Arrives(env, id, round, k);
      assert Arrives(env, id, round + 1, k);
    }
    if Answered(env, id, round + 1, rounds) {
      var k: nat :| k < round + 1 + rounds && Arrives(env, id, round + 1, k);
      assert Arrives(env, id, round, k);
    }
  }

  lemma {:induction false} NeverGoesBack(ctxs: Contexts, packets: seq<Packet>, i: nat)
    requires i < FEATURES && !ctxs[i].state.NotSubscribed?
    ensures !AfterPackets(ctxs, packets)[i].state.NotSubscribed?
    decreases |packets|
  {
    if packets != [] {
      NeverGoesBack(if packets[0].SubAck? then Acknowledge(ctxs, packets[0].id) else ctxs, packets[1..], i);
    }
  }

  lemma {:induction false} AfterAppend(ctxs: Contexts, a: seq<Packet>, b: seq<Packet>)
    ensures AfterPackets(ctxs, a + b) == AfterPackets(AfterPackets(ctxs, a), b)
    decreases |a|
  {
    if a == [] {
      assert a + b == b;
    } else {
      assert (a + b)[1..] == a[1..] + b;
      AfterAppend(if a[0].SubAck? then Acknowledge(ctxs, a[0].id) else ctxs, a[1..], b);
    }
  }

  // ----- PUBLISH -----

  /** What a feature's process function makes of a topic; None stands for an error result. */
  function Classify(o: Topics, f: Feature, topic: bytes): Option<Kind> {
    match f
    case CloudToDevice => if o.cloud(topic) then Some(CloudMessage) else None
    case Commands => if o.command(topic) then Some(CommandRequest) else None
    case Properties =>
      match o.properties(topic)
      case None => None
      case Some(text) =>
        if text == [] then Some(WritableProperties)
        else
          match ParseU32(text)
          case None => None
          case Some(id) => Some(if id % 2 == 1 then ReportedResponse(id) else RequestedProperties(id))
  }

  /** Whether the topic belongs to the feature at all, which is all that is checked when a context
      has no callback. */
  function Matches(o: Topics, f: Feature, topic: bytes): bool {
    match f
    case CloudToDevice => o.cloud(topic)
    case Commands => o.command(topic)
    case Properties => o.properties(topic).Some?
  }

  function Accepts(o: Topics, c: Context, topic: bytes): bool {
    Live(c) &&
    if c.callback.Some? then Classify(o, c.handler.value, topic).Some? else Matches(o, c.handler.value, topic)
  }

  /** The least index of a context that accepts the topic, or the number of contexts. */
  function AcceptorFrom(o: Topics, ctxs: Contexts, topic: bytes, from: nat): (r: nat)
    requires from <= FEATURES
    ensures from <= r <= FEATURES
    ensures r < FEATURES ==> Accepts(o, ctxs[r], topic)
    ensures forall i | from <= i < r :: !Accepts(o, ctxs[i], topic)
    decreases FEATURES - from
  {
    if from == FEATURES || Accepts(o, ctxs[from], topic) then from else AcceptorFrom(o, ctxs, topic, from + 1)
  }

  function DeliveryOf(o: Topics, c: Context, topic: bytes, payload: bytes): seq<Delivery>
    requires Accepts(o, c, topic)
  {
    if c.callback.None? then []
    else [Delivery(c.callback.value, c.argument, Classify(o, c.handler.value, topic).value, payload)]
  }

  /** The callback invocations caused by one PUBLISH. */
  function Dispatch(o: Topics, ctxs: Contexts, topic: bytes, payload: bytes): seq<Delivery> {
    var i := AcceptorFrom(o, ctxs, topic, 0);
    if topic == [] || i == FEATURES then [] else DeliveryOf(o, ctxs[i], topic, payload)
  }

  function Deliveries(o: Topics, ctxs: Contexts, packets: seq<Packet>): seq<Delivery>
    decreases |packets|
  {
    if packets == [] then []
    else
      (if packets[0].Publish? then Dispatch(o, ctxs, packets[0].topic, packets[0].payload) else [])
      + Deliveries(o, ctxs, packets[1..])
  }

  /** What every reachable context satisfies: its handler and the arm of its callback are those of its
      index, and a live context has a callback. */
  predicate Matched(c: Context, f: Feature) {
    if Live(c) then c.handler == Some(f) && c.callback.Some? && c.callback.value.arm == f && !c.state.NotSubscribed?
    else c.callback.None?
  }

  predicate AllMatched(ctxs: Contexts) {
    Matched(ctxs[0], CloudToDevice) && Matched(ctxs[1], Commands) && Matched(ctxs[2], Properties)
  }

  /** Each PUBLISH invokes at most one callback: that of the least context whose handler accepts the
      topic, through the arm of the union it was stored with, told what the handler recognized. */
  lemma AtMostOneDelivery(o: Topics, ctxs: Contexts, topic: bytes, payload: bytes)
    requires AllMatched(ctxs)
    ensures var ds := Dispatch(o, ctxs, topic, payload);
            |ds| <= 1
            && (ds == [] <==> topic == [] || forall i | 0 <= i < FEATURES :: !Accepts(o, ctxs[i], topic))
            && forall f | ds != [] && ds[0].callback.arm == f ::
                 && ctxs[Index(f)].callback == Some(ds[0].callback)
                 && Classify(o, f, topic) == Some(ds[0].kind) && ds[0].payload == payload
                 && forall i | 0 <= i < Index(f) :: !Accepts(o, ctxs[i], topic)
  {
  }

  /** Each PUBLISH by the first parser that takes its topic, when all three features are subscribed: what
      the callback is told, and that a request id that cannot be read is not delivered. */
  lemma DeliveredByTopic(o: Topics, ctxs: Contexts, topic: bytes, payload: bytes)
    requires AllMatched(ctxs) && Live(ctxs[0]) && Live(ctxs[1]) && Live(ctxs[2]) && topic != []
    ensures var c, ds := ctxs, Dispatch(o, ctxs, topic, payload);
            if o.cloud(topic) then ds == [Delivery(c[0].callback.value, c[0].argument, CloudMessage, payload)]
            else if o.command(topic) then
              ds == [Delivery(c[1].callback.value, c[1].argument, CommandRequest, payload)]
            else
              match o.properties(topic)
              case None => ds == []
              case Some(text) =>
                if text == [] then ds == [Delivery(c[2].callback.value, c[2].argument, WritableProperties, payload)]
                else
                  match ParseU32(text)
                  case None => ds == []
                  case Some(id) =>
                    var kind := if id % 2 == 1 then ReportedResponse(id) else RequestedProperties(id);
                    ds == [Delivery(c[2].callback.value, c[2].argument, kind, payload)]
  {
    assert AcceptorFrom(o, ctxs, topic, 3) == 3;
    assert AcceptorFrom(o, ctxs, topic, 2) == if Accepts(o, ctxs[2], topic) then 2 else 3;
    assert AcceptorFrom(o, ctxs, topic, 1)
        == if Accepts(o, ctxs[1], topic) then 1 else AcceptorFrom(o, ctxs, topic, 2);
  }

  /** A context takes exactly the topics of its own feature. */
  lemma AcceptsOwnTopics(o: Topics, ctxs: Contexts, topic: bytes)
    requires AllMatched(ctxs)
    ensures Accepts(o, ctxs[0], topic) <==> Live(ctxs[0]) && o.cloud(topic)
    ensures Accepts(o, ctxs[1], topic) <==> Live(ctxs[1]) && o.command(topic)
    ensures Accepts(o, ctxs[2], topic) <==>
              && Live(ctxs[2]) && o.properties(topic).Some?
              && (o.properties(topic).value == [] || ParseU32(o.properties(topic).value).Some?)
  {
  }

  /** The answer to a request is delivered as what was asked for, with the id that was issued, exactly if
      neither of the contexts before the properties context accepts its topic. */
  lemma EchoIsClassified(o: Topics, ctxs: Contexts, topic: bytes, payload: bytes, current: uint32, odd: bool)
    requires AllMatched(ctxs) && Live(ctxs[2]) && topic != []
    requires o.properties(topic) == Some(Decimal(NextId(current, odd) as nat))
    ensures var id, c := NextId(current, odd), ctxs[2];
            var kind := if odd then ReportedResponse(id) else RequestedProperties(id);
            Dispatch(o, ctxs, topic, payload) == [Delivery(c.callback.value, c.argument, kind, payload)]
            <==> !Accepts(o, ctxs[0], topic) && !Accepts(o, ctxs[1], topic)
  {
    IdTextRoundTrip(NextId(current, odd));
    IssuedIdTellsKind(current, odd);
    var first := AcceptorFrom(o, ctxs, topic, 0);
    assert Accepts(o, ctxs[2], topic);
    if first < 2 {
      assert Accepts(o, ctxs[first], topic);
      assert Dispatch(o, ctxs, topic, payload)[0].kind in {CloudMessage, CommandRequest};
    }
  }

  lemma DispatchIgnoresState(o: Topics, a: Contexts, b: Contexts, topic: bytes, payload: bytes)
    requires forall i | 0 <= i < FEATURES :: SameBinding(a[i], b[i])
    ensures Dispatch(o, a, topic, payload) == Dispatch(o, b, topic, payload)
  {
    var i, j := AcceptorFrom(o, a, topic, 0), AcceptorFrom(o, b, topic, 0);
    assert forall k | 0 <= k < FEATURES :: Accepts(o, a[k], topic) == Accepts(o, b[k], topic);
    assert i == j;
  }

  lemma {:induction false} DeliveriesIgnoreState(o: Topics, a: Contexts, b: Contexts, packets: seq<Packet>)
    requires forall i | 0 <= i < FEATURES :: SameBinding(a[i], b[i])
    ensures Deliveries(o, a, packets) == Deliveries(o, b, packets)
    decreases |packets|
  {
    if packets != [] {
      if packets[0].Publish? {
        DispatchIgnoresState(o, a, b, packets[0].topic, packets[0].payload);
      }
      DeliveriesIgnoreState(o, a, b, packets[1..]);
    }
  }

  /** One packet after others: a PUBLISH is dispatched, and nothing else is delivered. */
  lemma LastPacket(o: Topics, ctxs: Contexts, packets: seq<Packet>, p: Packet)
    ensures Deliveries(o, ctxs, packets + [p])
         == Deliveries(o, ctxs, packets) + (if p.Publish? then Dispatch(o, ctxs, p.topic, p.payload) else [])
  {
    DeliveriesAppend(o, ctxs, packets, [p]);
    assert [p][1..] == [] && Deliveries(o, ctxs, []) == [];
  }

  /** Packets that arrive after others: what they do, and what they deliver. */
  lemma PacketsAppend(o: Topics, ctxs: Contexts, a: seq<Packet>, b: seq<Packet>)
    ensures AfterPackets(ctxs, a + b) == AfterPackets(AfterPackets(ctxs, a), b)
    ensures Deliveries(o, ctxs, a + b) == Deliveries(o, ctxs, a) + Deliveries(o, AfterPackets(ctxs, a), b)
  {
    AfterAppend(ctxs, a, b);
    PacketsKeepBindings(ctxs, a);
    DeliveriesIgnoreState(o, ctxs, AfterPackets(ctxs, a), b);
    DeliveriesAppend(o, ctxs, a, b);
  }

  lemma {:induction false} DeliveriesAppend(o: Topics, ctxs: Contexts, a: seq<Packet>, b: seq<Packet>)
    ensures Deliveries(o, ctxs, a + b) == Deliveries(o, ctxs, a) + Deliveries(o, ctxs, b)
    decreases |a|
  {
    if a == [] {
      assert a + b == b;
    } else {
      assert (a + b)[1..] == a[1..] + b;
      DeliveriesAppend(o, ctxs, a[1..], b);
    }
  }
}
