/** The hub client: receive contexts and the request-id counter, updated in place. */
module HubClient {
  import opened Common
  import opened HubSpec
  import opened RequestIds
  import opened WaitBudget

  class Client {
    const topics: Topics
    const contexts: array<Context>
    var requestId: uint32
    /** The invocations of user callbacks so far. */
    var delivered: seq<Delivery>

    /** The fields after the `memset` of `AzureIoTHubClient_Init`. */
    constructor (topics: Topics)
      ensures Valid() && fresh(contexts) && this.topics == topics
      ensures contexts[..] == [ZEROED, ZEROED, ZEROED] && requestId == 0 && delivered == []
    {
      this.topics := topics;
      contexts := new Context[FEATURES](_ => ZEROED);
      requestId, delivered := 0, [];
    }

    ghost predicate Valid()
      reads this, contexts
    {
      contexts.Length == FEATURES && AllMatched(contexts[..])
    }

    /** `prvMQTTProcessSuback`. */
    method ProcessSuback(id: nat)
      requires Valid()
      modifies contexts
      ensures Valid() && contexts[..] == Acknowledge(old(contexts[..]), id)
    {
      var index := 0;
      while index < FEATURES
        invariant index <= FEATURES && contexts[..] == old(contexts[..])
        invariant OwnerFrom(contexts[..], id, index) == OwnerFrom(contexts[..], id, 0)
      {
        if contexts[index].packetId == id {
          contexts[index] := contexts[index].(state := Acknowledged);
          break;
        }
        index := index + 1;
      }
    }

    /** A call through the process function of a context: whether it returns success. */
    method Process(c: Context, topic: bytes, payload: bytes) returns (success: bool)
      requires Live(c)
      modifies this`delivered
      ensures success == Accepts(topics, c, topic)
      ensures delivered == old(delivered) + (if success then DeliveryOf(topics, c, topic, payload) else [])
    {
      success := Matches(topics, c.handler.value, topic);
      if success && c.callback.Some? {
        var kind := Classify(topics, c.handler.value, topic);
        success := kind.Some?;
        if success {
          delivered := delivered + [Delivery(c.callback.value, c.argument, kind.value, payload)];
        }
      }
    }

    /** `prvMQTTProcessIncomingPublish`. */
    method ProcessIncomingPublish(topic: bytes, payload: bytes)
      requires Valid()
      modifies this`delivered
      ensures Valid() && delivered == old(delivered) + Dispatch(topics, contexts[..], topic, payload)
    {
      if topic == [] {
        return;
      }
      var index := 0;
      while index < FEATURES
        invariant index <= FEATURES && delivered == old(delivered)
        invariant AcceptorFrom(topics, contexts[..], topic, index) == AcceptorFrom(topics, contexts[..], topic, 0)
      {
        if contexts[index].handler.Some? {
          var success := Process(contexts[index], topic, payload);
          if success {
            break;
          }
        }
        index := index + 1;
      }
    }

    /** `AzureIoTMQTT_ProcessLoop`, which hands every packet to `prvEventCallback`. */
    method ProcessLoop(packets: seq<Packet>)
      requires Valid()
      modifies this`delivered, contexts
      ensures Valid() && contexts[..] == AfterPackets(old(contexts[..]), packets)
      ensures delivered == old(delivered) + Deliveries(topics, old(contexts[..]), packets)
    {
      ghost var ctxs, log := contexts[..], delivered;
      for i := 0 to |packets|
        invariant Valid()
        invariant AfterPackets(contexts[..], packets[i..]) == AfterPackets(ctxs, packets)
        invariant delivered + Deliveries(topics, contexts[..], packets[i..])
               == log + Deliveries(topics, ctxs, packets)
      {
        PacketFirst(contexts[..], packets[i..]);
        assert packets[i..][1..] == packets[i + 1..];
        match packets[i] {
          case Publish(topic, payload) => ProcessIncomingPublish(topic, payload);
          case SubAck(id) => ProcessSuback(id);
          case Other =>
        }
      }
    }

    /** What the first packet does, and then the rest. */
    lemma PacketFirst(ctxs: Contexts, packets: seq<Packet>)
      requires packets != []
      ensures var p, rest := packets[0], packets[1..];
              var next := if p.SubAck? then Acknowledge(ctxs, p.id) else ctxs;
              && AfterPackets(ctxs, packets) == AfterPackets(next, rest)
              && Deliveries(topics, ctxs, packets)
                 == (if p.Publish? then Dispatch(topics, ctxs, p.topic, p.payload) else [])
                    + Deliveries(topics, next, rest)
    {
      var next := if packets[0].SubAck? then Acknowledge(ctxs, packets[0].id) else ctxs;
      DeliveriesIgnoreState(topics, ctxs, next, packets[1..]);
    }

    /** One round of the wait below. `received` are the packets since the contexts were `ctxs` and the
        deliveries were `log`. */
    method HearRound(timeout: uint32, packets: seq<Packet>, ghost ctxs: Contexts, ghost log: seq<Delivery>,
                     ghost received: seq<Packet>)
      returns (wait: uint32, rest: uint32)
      requires Valid() && contexts[..] == AfterPackets(ctxs, received)
      requires delivered == log + Deliveries(topics, ctxs, received)
      modifies this`delivered, contexts
      ensures Valid() && contexts[..] == AfterPackets(old(contexts[..]), packets)
      ensures contexts[..] == AfterPackets(ctxs, received + packets)
      ensures delivered == log + Deliveries(topics, ctxs, received + packets)
      ensures rest == if timeout > SUBACK_INTERVAL_MS then timeout - SUBACK_INTERVAL_MS else 0
      ensures Waits(timeout, SUBACK_INTERVAL_MS)
           == [wait] + (if rest == 0 then [] else Waits(rest, SUBACK_INTERVAL_MS))
    {
      wait, rest := TakeWait(timeout, SUBACK_INTERVAL_MS);
      PacketsAppend(topics, ctxs, received, packets);
      ProcessLoop(packets);
    }

    /** `prvWaitForSubAck` on the context of feature `f`; round 0 of `env` is the first one it plays. */
    method WaitForSubAck(f: Feature, timeout: uint32, env: nat -> Round)
      returns (r: AzureResult, waits: seq<uint32>, ghost w: Wait)
      requires Valid()
      modifies this`delivered, contexts
      ensures Valid() && w == PlayWait(old(contexts[..]), Index(f), env, 0, timeout)
      ensures contexts[..] == AfterPackets(old(contexts[..]), w.packets)
      ensures delivered == old(delivered) + Deliveries(topics, old(contexts[..]), w.packets)
      ensures waits <= Waits(timeout, SUBACK_INTERVAL_MS) && |waits| == w.rounds
      ensures r == if contexts[Index(f)].state.Acknowledged? then Success
                   else if w.failed then ErrorFailed else ErrorSubackWaitTimeout
      ensures r.ErrorFailed? <==>
                && !contexts[Index(f)].state.Acknowledged?
                && SomeRoundFails(old(contexts[..]), Index(f), env, 0, |Waits(timeout, SUBACK_INTERVAL_MS)|)
      ensures r.ErrorSubackWaitTimeout? ==> waits == Waits(timeout, SUBACK_INTERVAL_MS)
    {
      r, waits := ErrorSubackWaitTimeout, [];
      var rest, round, more := timeout, 0, true;
      ghost var ctxs, log, received, i := contexts[..], delivered, [], Index(f);
      ghost var todo, tail := PlayWait(ctxs, i, env, 0, timeout), Waits(timeout, SUBACK_INTERVAL_MS);
      w := todo;
      WaitFails(ctxs, i, env, 0, timeout);
      while more
        invariant Valid() && contexts[..] == AfterPackets(ctxs, received)
        invariant delivered == log + Deliveries(topics, ctxs, received)
        invariant w == Wait(received + todo.packets, |waits| + todo.rounds, todo.failed)
        invariant more ==> todo == PlayWait(contexts[..], i, env, round, rest)
        invariant !more ==> todo == Wait([], 0, r.ErrorFailed?)
        invariant r.ErrorSubackWaitTimeout? || (!more && (r.ErrorFailed? || contexts[i].state.Acknowledged?))
        invariant Waits(timeout, SUBACK_INTERVAL_MS) == waits + tail
        invariant more ==> tail == Waits(rest, SUBACK_INTERVAL_MS)
        invariant !more && r.ErrorSubackWaitTimeout? ==> tail == []
        decreases more, rest
      {
        if contexts[Index(f)].state.Acknowledged? {
          r, more := Success, false;
        } else {
          var wait;
          WaitRound(contexts[..], i, env, round, rest, received, |waits|);
          todo := AfterRound(contexts[..], i, env, round, rest);
          wait, rest := HearRound(rest, env(round).packets, ctxs, log, received);
          tail := if rest == 0 then [] else Waits(rest, SUBACK_INTERVAL_MS);
          Regroup(waits, wait, tail);
          waits, received := waits + [wait], received + env(round).packets;
          more := env(round).ok && rest > 0;
          if !env(round).ok {
            r := ErrorFailed;
          }
          round := round + 1;
        }
      }
      assert received + [] == received;
      if contexts[Index(f)].state.Acknowledged? {
        r := Success;
      }
    }

    /** The three `AzureIoTHubClient_Subscribe...` functions, which differ in their feature only.
        `id` is the packet id drawn for the SUBSCRIBE and `sent` the result of sending it. */
    method Subscribe(f: Feature, callback: Option<nat>, argument: nat, id: nat, sent: bool,
                     timeout: uint32, env: nat -> Round)
      returns (r: AzureResult, waits: seq<uint32>)
      requires Valid()
      modifies this`delivered, contexts
      ensures Valid() && waits <= Waits(timeout, SUBACK_INTERVAL_MS)
      ensures callback.None? ==> r.ErrorInvalidArgument?
      ensures callback.Some? && !sent ==> r.ErrorSubscribeFailed?
      ensures callback.None? || !sent ==>
                contexts[..] == old(contexts[..]) && delivered == old(delivered) && waits == []
      ensures callback.Some? && sent ==>
                var mine := Context(Subscribed, id, Some(f), Some(Callback(f, callback.value)), argument);
                var waiting := old(contexts[..])[Index(f) := mine];
                var w := PlayWait(waiting, Index(f), env, 0, timeout);
                var after := AfterPackets(waiting, w.packets);
                && r == (if after[Index(f)].state.Acknowledged? then Success
                         else if w.failed then ErrorFailed else ErrorSubackWaitTimeout)
                && contexts[..] == (if r.Success? then after else after[Index(f) := ZEROED])
                && delivered == old(delivered) + Deliveries(topics, waiting, w.packets)
                && |waits| == w.rounds
      ensures callback.Some? && sent && (forall j | 0 <= j < Index(f) :: old(contexts[..])[j].packetId != id) ==>
                (r.Success? <==> Answered(env, id, 0, |Waits(timeout, SUBACK_INTERVAL_MS)|))
    {
      waits := [];
      if callback.None? {
        return ErrorInvalidArgument, waits;
      }
      if !sent {
        return ErrorSubscribeFailed, waits;
      }
      contexts[Index(f)] := Context(Subscribed, id, Some(f), Some(Callback(f, callback.value)), argument);
      ghost var waiting := contexts[..];
      ghost var w: Wait;
      r, waits, w := WaitForSubAck(f, timeout, env);
      if !r.Success? {
        contexts[Index(f)] := ZEROED;
      }
      if forall j | 0 <= j < Index(f) :: waiting[j].packetId != id {
        HeardIffArrives(waiting, Index(f), env, 0, timeout);
      }
    }

    /** The three `AzureIoTHubClient_Unsubscribe...` functions. */
    method Unsubscribe(f: Feature, sent: bool) returns (r: AzureResult)
      requires Valid()
      modifies contexts
      ensures Valid()
      ensures contexts[..] == if sent then old(contexts[..])[Index(f) := ZEROED] else old(contexts[..])
      ensures r == if sent then Success else ErrorUnsubscribeFailed
    {
      if !sent {
        return ErrorUnsubscribeFailed;
      }
      contexts[Index(f)] := ZEROED;
      return Success;
    }

    /** `prvGetPropertiesRequestId`: the id and the part of a ten-byte buffer that its text fills. */
    method GetPropertiesRequestId(odd: bool) returns (id: uint32, text: bytes)
      modifies this`requestId
      ensures id == requestId == NextId(old(requestId), odd)
      ensures id != 0 && (id % 2 == 1 <==> odd)
      ensures |text| <= 10 && ParseU32(text) == Some(id) && text == Decimal(id as nat)
    {
      IssuedIdTellsKind(requestId, odd);
      if odd == (requestId % 2 == 1) {
        requestId := AddU32(requestId, 2);
      } else {
        requestId := AddU32(requestId, 1);
      }
      if requestId == 0 {
        requestId := 2;
      }
      id := requestId;
      text := FormatId(id);
    }

    /** `az_span_u32toa` into a ten-byte buffer, and the slice before the remainder it reports. */
    method FormatId(id: uint32) returns (text: bytes)
      ensures |text| <= 10 && ParseU32(text) == Some(id) && text == Decimal(id as nat)
    {
      IdTextRoundTrip(id);
      var written := Decimal(id as nat);
      var buffer := new byte[10];
      ghost var before := buffer[..];
      Store(buffer, 0, written);
      ReadBack(before, 0, written);
      var remainder := buffer.Length - |written|;
      text := buffer[..buffer.Length - remainder];
    }

    /** `AzureIoTHubClient_SendPropertiesReported` (odd) and `AzureIoTHubClient_RequestPropertiesAsync`
        (even): nothing is issued unless the properties subscription has been acknowledged. */
    method SendPropertiesRequest(odd: bool, topicOk: bool, published: bool)
      returns (r: AzureResult, id: Option<uint32>)
      requires Valid()
      modifies this`requestId
      ensures Valid()
      ensures id.Some? <==> contexts[Index(Properties)].state.Acknowledged?
      ensures id.None? ==> r.ErrorTopicNotSubscribed? && requestId == old(requestId)
      ensures id.Some? ==> id.value == requestId == NextId(old(requestId), odd)
      ensures r.Success? <==> id.Some? && topicOk && published
      ensures id.Some? && topicOk && !published ==> r.ErrorPublishFailed?
    {
      if !contexts[Index(Properties)].state.Acknowledged? {
        return ErrorTopicNotSubscribed, None;
      }
      var issued, text := GetPropertiesRequestId(odd);
      r := if !topicOk then CoreError(0) else if !published then ErrorPublishFailed else Success;
      id := Some(issued);
    }
  }

  /** 32-bit unsigned addition. */
  function AddU32(a: uint32, b: uint32): uint32 {
    ((a as int + b as int) % 0x1_0000_0000) as uint32
  }
}
