/** The request ids of property messages (`prvGetPropertiesRequestId`): a wrapping 32-bit counter whose
    parity tells a reported-properties request (odd) from a get request (even). */
module RequestIds {
  import opened Common

  const RANGE: int := 0x1_0000_0000
  /** The length of the shortest sequence of calls that can repeat an id. */
  const PERIOD: int := 0x7FFF_FFFF

  function NextId(current: uint32, odd: bool): uint32 {
    var step := if odd == (current % 2 == 1) then 2 else 1;
    var next := (current as int + step) % RANGE;
    if next == 0 then 2 else next as uint32
  }

  /** The counter after a sequence of calls, each asking for an odd or an even id. */
  function IdAfter(start: uint32, calls: seq<bool>): uint32
    decreases |calls|
  {
    if calls == [] then start else NextId(IdAfter(start, calls[..|calls| - 1]), calls[|calls| - 1])
  }

  /** Whatever the counter was, an issued id is not zero and its parity names the request. */
  lemma IssuedIdTellsKind(current: uint32, odd: bool)
    ensures NextId(current, odd) != 0
    ensures NextId(current, odd) % 2 == 1 <==> odd
  {
  }

  /** An issued id is the least value above the counter that has the parity asked for and is not zero
      modulo 2^32; `u` is that value before it wraps. */
  lemma NextIdIsLeast(current: uint32, odd: bool) returns (u: int)
    ensures current as int < u && (u % 2 == 1 <==> odd) && 0 < u % RANGE == NextId(current, odd) as int
    ensures forall x | current as int < x < u :: (x % 2 == 1 <==> !odd) || x % RANGE == 0
    ensures current as int + 2 < RANGE ==> u == NextId(current, odd) as int
  {
    u := current as int + if odd == (current % 2 == 1) then 2 else 1;
    if u == RANGE {
      u := RANGE + 2;
    }
  }

  /** The counter as if it never wrapped: it only grows, by 1 or 2 a call, and by 2 more where the
      wrap skips zero. */
  function Advance(u: int, odd: bool): (r: int)
    ensures u < r <= u + 4 && (r <= u + 2 || r == RANGE + 2)
  {
    var next := u + if odd == (u % 2 == 1) then 2 else 1;
    if next == RANGE then RANGE + 2 else next
  }

  function Unwrapped(start: uint32, calls: seq<bool>): int
    decreases |calls|
  {
    if calls == [] then start as int
    else Advance(Unwrapped(start, calls[..|calls| - 1]), calls[|calls| - 1])
  }

  predicate InTwoTurns(u: int) { 0 < u < 2 * RANGE && u != RANGE }

  function Wrap(u: int): uint32
    requires InTwoTurns(u)
  {
    if u < RANGE then u as uint32 else (u - RANGE) as uint32
  }

  lemma AdvanceIsNext(u: int, odd: bool)
    requires InTwoTurns(u) && InTwoTurns(Advance(u, odd))
    ensures NextId(Wrap(u), odd) == Wrap(Advance(u, odd))
  {
    assert (u - RANGE) % 2 == u % 2;
  }

  lemma {:induction false} UnwrappedBounds(start: uint32, calls: seq<bool>)
    requires start > 0 && |calls| < PERIOD
    ensures var u := Unwrapped(start, calls);
            && start as int + |calls| <= u <= start as int + 2 * |calls| + (if u >= RANGE then 2 else 0)
            && InTwoTurns(u) && IdAfter(start, calls) == Wrap(u)
    decreases |calls|
  {
    if calls != [] {
      UnwrappedBounds(start, calls[..|calls| - 1]);
      AdvanceIsNext(Unwrapped(start, calls[..|calls| - 1]), calls[|calls| - 1]);
    }
  }

  lemma {:induction false} IdAfterAppend(start: uint32, a: seq<bool>, b: seq<bool>)
    ensures IdAfter(start, a + b) == IdAfter(IdAfter(start, a), b)
    decreases |b|
  {
    if b == [] {
      assert a + b == a;
    } else {
      assert (a + b)[..|a + b| - 1] == a + b[..|b| - 1];
      IdAfterAppend(start, a, b[..|b| - 1]);
    }
  }

  /** Two ids issued fewer than 2^31 - 1 calls apart differ, for any mix of calls and any counter. */
  lemma IdsDiffer(start: uint32, calls: seq<bool>, i: nat, j: nat)
    requires 0 < i < j <= |calls| && j - i < PERIOD
    ensures IdAfter(start, calls[..i]) != IdAfter(start, calls[..j])
  {
    var first := IdAfter(start, calls[..i]);
    IssuedIdTellsKind(IdAfter(start, calls[..i][..i - 1]), calls[i - 1]);
    assert calls[..j] == calls[..i] + calls[i..j];
    IdAfterAppend(start, calls[..i], calls[i..j]);
    UnwrappedBounds(first, calls[i..j]);
  }

  function Evens(n: nat): seq<bool> { seq(n, _ => false) }

  lemma {:induction false} AllEven(start: uint32, n: nat)
    requires start > 0 && start % 2 == 0 && n <= PERIOD
    ensures IdAfter(start, Evens(n)) as int == EvenAfter(start as int, n)
  {
    if n > 0 {
      assert Evens(n)[..n - 1] == Evens(n - 1);
      AllEven(start, n - 1);
      NextEven(start as int, n - 1);
    }
  }

  function EvenAfter(start: int, n: nat): int {
    var u := start + 2 * n;
    if u < RANGE then u else u - RANGE + 2
  }

  lemma NextEven(start: int, n: nat)
    requires 0 < start < RANGE && start % 2 == 0 && n < PERIOD
    ensures 0 < EvenAfter(start, n) < RANGE
    ensures NextId(EvenAfter(start, n) as uint32, false) as int == EvenAfter(start, n + 1)
  {
    assert EvenAfter(start, n) % 2 == 0;
  }

  /** The bound is attained: 2^31 - 1 get requests bring back the same id. */
  lemma PeriodAttained(start: uint32)
    requires start > 0 && start % 2 == 0
    ensures |Evens(PERIOD)| == PERIOD && IdAfter(start, Evens(PERIOD)) == start
  {
    AllEven(start, PERIOD);
  }

  // ----- Decimal text, as `az_span_u32toa` writes it and `az_span_atou32` reads it -----

  const ZERO: byte := 48
  const PLUS: byte := 43

  function Decimal(n: nat): (r: bytes)
    ensures |r| > 0
  {
    var digit := [ZERO + (n % 10) as byte];
    if n < 10 then digit else Decimal(n / 10) + digit
  }

  predicate IsDigit(b: byte) { ZERO <= b < ZERO + 10 }

  /** The value of a digit string, if every character is a digit. */
  function Digits(text: bytes): Option<nat> {
    if text == [] then Some(0)
    else
      var last := text[|text| - 1];
      match Digits(text[..|text| - 1])
      case None => None
      case Some(v) => if IsDigit(last) then Some(v * 10 + (last - ZERO) as nat) else None
  }

  function ParseU32(text: bytes): Option<uint32> {
    var digits := if |text| > 1 && text[0] == PLUS then text[1..] else text;
    if digits == [] then None
    else
      match Digits(digits)
      case None => None
      case Some(v) => if v < RANGE then Some(v as uint32) else None
  }

  function Pow10(k: nat): nat { if k == 0 then 1 else 10 * Pow10(k - 1) }

  lemma {:induction false} DecimalLength(n: nat, k: nat)
    requires k > 0 && n < Pow10(k)
    ensures |Decimal(n)| <= k
  {
    if n >= 10 {
      assert n / 10 < Pow10(k - 1);
      DecimalLength(n / 10, k - 1);
    }
  }

  lemma {:induction false} DigitsOfDecimal(n: nat)
    ensures Digits(Decimal(n)) == Some(n) && IsDigit(Decimal(n)[0])
  {
    var d := Decimal(n);
    if n < 10 {
      assert d[..0] == [];
    } else {
      DigitsOfDecimal(n / 10);
      assert d[..|d| - 1] == Decimal(n / 10);
    }
  }

  lemma TenthsOf(n: nat, p: nat)
    requires p > 0
    ensures n / 10 / p == n / (10 * p)
  {
    var q := n / (10 * p);
    var rest := n % (10 * p);
    assert n == 10 * (q * p) + rest && 0 <= rest < 10 * p;
    assert n / 10 == q * p + rest / 10 && 0 <= rest / 10 < p;
    QuotientIs(n / 10, p, q, rest / 10);
  }

  lemma QuotientIs(a: int, p: int, q: int, r: int)
    requires 0 <= r < p && a == q * p + r
    ensures a / p == q
  {
    var d := a / p - q;
    assert a == a / p * p + a % p && d * p == a / p * p - q * p;
    assert d >= 1 ==> d * p >= p;
    assert d <= -1 ==> d * p <= -p;
  }

  lemma {:induction false} Pow10Positive(k: nat)
    ensures Pow10(k) > 0
  {
    if k > 0 {
      Pow10Positive(k - 1);
    }
  }

  /** The decimal text is the ASCII digits, the most significant one first and not zero. */
  lemma {:induction false} DecimalDigit(n: nat, k: nat)
    requires k < |Decimal(n)|
    ensures Pow10(k) > 0 && Decimal(n)[|Decimal(n)| - 1 - k] as int == 48 + n / Pow10(k) % 10
    ensures n > 0 ==> Decimal(n)[0] != 48
  {
    Pow10Positive(k);
    if n >= 10 {
      DecimalDigit(n / 10, if k > 0 then k - 1 else 0);
      if k > 0 {
        Pow10Positive(k - 1);
        TenthsOf(n, Pow10(k - 1));
      }
    }
  }

  /** Every id fits the ten bytes reserved for its text and reads back as itself. */
  lemma IdTextRoundTrip(id: uint32)
    ensures |Decimal(id as nat)| <= 10 && ParseU32(Decimal(id as nat)) == Some(id)
  {
    assert Pow10(10) == 10_000_000_000 by {
      assert Pow10(5) == 100_000;
      assert Pow10(10) == 100_000 * Pow10(5);
    }
    DecimalLength(id as nat, 10);
    DigitsOfDecimal(id as nat);
  }
}
