/** The two polling loops (`prvProvClientRunWorkflow`, `prvWaitForSubAck`) hand out a timeout in
    waits of at most one interval each. */
module WaitBudget {
  import opened Common

  /** All the waits a timeout is split into, if no loop ends early. Even a zero timeout gets one. */
  function Waits(timeout: uint32, interval: uint32): seq<uint32>
    requires interval > 0
    decreases timeout
  {
    if timeout > interval then [interval] + Waits(timeout - interval, interval) else [timeout]
  }

  function Sum(waits: seq<uint32>): int {
    if waits == [] then 0 else waits[0] as int + Sum(waits[1..])
  }

  /** `rounds` is ceil(timeout / interval), or 1 for a zero timeout. */
  predicate Rounds(rounds: nat, timeout: int, interval: int) {
    if timeout == 0 then rounds == 1 else (rounds - 1) * interval < timeout <= rounds * interval
  }

  lemma {:induction false} SumAppend(a: seq<uint32>, b: seq<uint32>)
    ensures Sum(a + b) == Sum(a) + Sum(b)
  {
    if a == [] {
      assert a + b == b;
    } else {
      assert (a + b)[1..] == a[1..] + b;
      SumAppend(a[1..], b);
    }
  }

  /** The waits add up to the timeout, none exceeds the interval, and their number is the least
      possible: ceil(timeout / interval), but at least one. */
  lemma {:induction false} WaitsAreExact(timeout: uint32, interval: uint32)
    requires interval > 0
    ensures Sum(Waits(timeout, interval)) == timeout as int
    ensures forall k | 0 <= k < |Waits(timeout, interval)| :: Waits(timeout, interval)[k] <= interval
    ensures forall k | 0 <= k < |Waits(timeout, interval)| - 1 :: Waits(timeout, interval)[k] == interval
    ensures Rounds(|Waits(timeout, interval)|, timeout as int, interval as int)
    decreases timeout
  {
    if timeout > interval {
      var rest := Waits(timeout - interval, interval);
      WaitsAreExact(timeout - interval, interval);
      assert Waits(timeout, interval)[1..] == rest;
      assert |rest| * interval as int == (|rest| - 1) * interval as int + interval as int;
      assert (|rest| + 1) * interval as int == |rest| * interval as int + interval as int;
    } else {
      assert Sum([timeout]) == timeout as int + Sum([]);
    }
  }

  /** What a loop that may end early has handed out: the waits and what is left make up the timeout,
      no wait exceeds the interval, and the rounds stay within ceil(timeout / interval). */
  lemma {:induction false} PrefixBudget(waits: seq<uint32>, timeout: uint32, interval: uint32)
    requires interval > 0 && waits <= Waits(timeout, interval)
    ensures 0 <= Sum(waits) <= timeout as int
    ensures |waits| <= 1 || (|waits| - 1) * interval as int < timeout as int
    ensures forall k | 0 <= k < |waits| :: waits[k] <= interval
  {
    var all := Waits(timeout, interval);
    assert all == waits + all[|waits|..];
    WaitsAreExact(timeout, interval);
    SumAppend(waits, all[|waits|..]);
    SumIsNat(waits);
    SumIsNat(all[|waits|..]);
    if |waits| > 1 {
      assert (|waits| - 1) * interval as int <= (|all| - 1) * interval as int;
    }
  }

  lemma {:induction false} SumIsNat(waits: seq<uint32>)
    ensures Sum(waits) >= 0
  {
    if waits != [] {
      SumIsNat(waits[1..]);
    }
  }

  /** "Wait forever" (0xFFFFFFFF) is bounded too: 8,589,935 rounds of 500 ms. */
  lemma ForeverEnds(waits: seq<uint32>)
    requires waits <= Waits(0xFFFF_FFFF, 500)
    ensures |waits| <= 8_589_935
  {
    PrefixBudget(waits, 0xFFFF_FFFF, 500);
  }

  lemma Regroup(a: seq<uint32>, wait: uint32, b: seq<uint32>)
    ensures a + ([wait] + b) == a + [wait] + b
  {
  }

  /** One step of either loop: the next wait and the remaining timeout. */
  method TakeWait(timeout: uint32, interval: uint32) returns (wait: uint32, rest: uint32)
    requires interval > 0
    ensures wait as int + rest as int == timeout as int
    ensures rest == if timeout > interval then timeout - interval else 0
    ensures Waits(timeout, interval) == [wait] + (if rest == 0 then [] else Waits(rest, interval))
  {
    if timeout > interval {
      rest := timeout - interval;
      wait := interval;
    } else {
      wait := timeout;
      rest := 0;
    }
  }
}
