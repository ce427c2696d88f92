/** The JWS compact serialization (section 7.1 of RFC 7515) and the dot scan of `prvSplitJWS`. */
module CompactJws {
  import opened Common

  const DOT: byte := 46

  datatype Parts = Parts(header: bytes, payload: bytes, signature: bytes)

  /** What is signed: `header.payload` (section 5.1 of RFC 7515). */
  function SigningInput(p: Parts): bytes { p.header + [DOT] + p.payload }

  function Join(p: Parts): bytes { SigningInput(p) + [DOT] + p.signature }

  predicate Compact(p: Parts) {
    DOT !in p.header && DOT !in p.payload && DOT !in p.signature && p.signature != []
  }

  /** The index of the first dot at or after `from`, or |s|. */
  function NextDot(s: bytes, from: nat): (r: nat)
    requires from <= |s|
    ensures from <= r <= |s| && DOT !in s[from..r]
    ensures r < |s| ==> s[r] == DOT
    decreases |s| - from
  {
    if from == |s| || s[from] == DOT then from
    else
      var r := NextDot(s, from + 1);
      assert s[from..r] == [s[from]] + s[from + 1..r];
      r
  }

  lemma {:induction false} NextDotIs(s: bytes, from: nat, r: nat)
    requires from <= r <= |s| && DOT !in s[from..r] && (r < |s| ==> s[r] == DOT)
    ensures NextDot(s, from) == r
    decreases r - from
  {
    if from < r {
      assert s[from..r] == [s[from]] + s[from + 1..r];
      NextDotIs(s, from + 1, r);
    }
  }

  /** The three parts of a text with exactly two dots and something after the second one. */
  function Split(s: bytes): Option<Parts> {
    var first := NextDot(s, 0);
    if first == |s| then None
    else
      var second := NextDot(s, first + 1);
      if second == |s| || second + 1 == |s| || NextDot(s, second + 1) < |s| then None
      else
        var payload, signature := Span(first + 1, second - first - 1), Span(second + 1, |s| - second - 1);
        Some(Parts(Cut(s, Span(0, first)), Cut(s, payload), Cut(s, signature)))
  }

  /** The split of a text by the places of its first two dots, and of a third one or the end. */
  lemma SplitAt(s: bytes, first: nat, second: nat, third: nat)
    requires first < second < third <= |s| && s[first] == DOT == s[second] && (third < |s| ==> s[third] == DOT)
    requires DOT !in s[0..first] && DOT !in s[first + 1..second] && DOT !in s[second + 1..third]
    ensures Split(s) == if third == |s| && second + 1 < |s|
                        then Some(Parts(s[0..first], s[first + 1..second], s[second + 1..|s|])) else None
  {
    NextDotIs(s, 0, first);
    NextDotIs(s, first + 1, second);
    NextDotIs(s, second + 1, third);
  }

  /** A text with one dot, at `first`, or with none. */
  lemma TooFewDots(s: bytes, first: nat)
    requires first <= |s| && DOT !in s[0..first]
    requires first < |s| ==> s[first] == DOT && DOT !in s[first + 1..|s|]
    ensures Split(s) == None
  {
    NextDotIs(s, 0, first);
    if first < |s| {
      NextDotIs(s, first + 1, |s|);
    }
  }

  /** Where the parts of a joined text stand. */
  lemma PartsOfJoin(p: Parts)
    ensures var s, first, second := Join(p), |p.header|, |p.header| + 1 + |p.payload|;
            && second < |s| && s[first] == DOT == s[second]
            && s[0..first] == p.header && s[first + 1..second] == p.payload && s[second + 1..|s|] == p.signature
  {
  }

  /** Splitting a joined text gives back its parts. */
  lemma SplitOfJoin(p: Parts)
    requires Compact(p)
    ensures Split(Join(p)) == Some(p)
  {
    PartsOfJoin(p);
    SplitAt(Join(p), |p.header|, |p.header| + 1 + |p.payload|, |Join(p)|);
  }

  /** The places of the two dots. */
  lemma SplitAtDots(s: bytes) returns (first: nat, second: nat)
    requires Split(s).Some?
    ensures first < second < |s| - 1 && s[first] == DOT == s[second]
    ensures DOT !in s[..first] && DOT !in s[first + 1..second] && DOT !in s[second + 1..]
    ensures Split(s).value == Parts(s[..first], s[first + 1..second], s[second + 1..])
  {
    first := NextDot(s, 0);
    second := NextDot(s, first + 1);
    assert s[0..first] == s[..first];
    assert s[second + 1..|s|] == s[second + 1..];
  }

  /** Joining the parts of a text gives back the text, and its prefix of length
      `|header| + |payload| + 1` is the signing input. */
  lemma JoinOfSplit(s: bytes)
    requires Split(s).Some?
    ensures var p := Split(s).value;
            Compact(p) && Join(p) == s
            && |p.header| + |p.payload| + 1 <= |s|
            && s[..|p.header| + |p.payload| + 1] == SigningInput(p)
  {
    var first, second := SplitAtDots(s);
    assert s[..first] + [DOT] + s[first + 1..second] == s[..second];
    assert s[..second] + [DOT] + s[second + 1..] == s;
  }

  /** Where the parts and the signing input stand in the text. */
  lemma PartsInPlace(s: bytes)
    requires Split(s).Some?
    ensures var p := Split(s).value;
            var payloadAt, signatureAt := |p.header| + 1, |p.header| + |p.payload| + 2;
            && signatureAt + |p.signature| == |s|
            && Cut(s, Span(0, |p.header|)) == p.header
            && Cut(s, Span(payloadAt, |p.payload|)) == p.payload
            && Cut(s, Span(signatureAt, |p.signature|)) == p.signature
            && Cut(s, Span(0, |p.header| + |p.payload| + 1)) == SigningInput(p)
  {
    JoinOfSplit(s);
  }

  /** A text splits exactly when it is the join of three dot-free parts, the third not empty; the
      parts are then unique. */
  lemma SplitsIffJoined(s: bytes)
    ensures Split(s).Some? <==> exists p :: Compact(p) && Join(p) == s
    ensures forall p :: Compact(p) && Join(p) == s ==> Split(s) == Some(p)
  {
    if Split(s).Some? {
      JoinOfSplit(s);
    }
    forall p | Compact(p) && Join(p) == s ensures Split(s) == Some(p) {
      SplitOfJoin(p);
    }
  }

  /** The scan of `prvSplitJWS`: one pass that remembers the first two dots. */
  method SplitJws(jws: bytes) returns (ok: bool, header: Span, payload: Span, signature: Span)
    ensures ok == Split(jws).Some?
    ensures ok ==>
              && header.at == 0 && payload.at == header.len + 1 && signature.at == header.len + payload.len + 2
              && signature.at + signature.len == |jws|
              && Split(jws) == Some(Parts(Cut(jws, header), Cut(jws, payload), Cut(jws, signature)))
  {
    header, payload, signature := Span(0, 0), Span(0, 0), Span(0, 0);
    var first, second, dots: nat, index: nat := 0, 0, 0, 0;
    while index < |jws|
      invariant index <= |jws| && dots <= 2
      invariant dots == 0 ==> DOT !in jws[0..index]
      invariant dots >= 1 ==> first < index && jws[first] == DOT && DOT !in jws[0..first]
      invariant dots == 1 ==> DOT !in jws[first + 1..index]
      invariant dots == 2 ==> first < second < index && jws[second] == DOT && DOT !in jws[first + 1..second]
      invariant dots == 2 ==> DOT !in jws[second + 1..index]
    {
      if jws[index] == DOT {
        dots := dots + 1;
        if dots == 1 {
          first := index;
        } else if dots == 2 {
          second := index;
        } else {
          SplitAt(jws, first, second, index);
          return false, header, payload, signature;
        }
      }
      index := index + 1;
    }
    if dots != 2 {
      TooFewDots(jws, if dots == 0 then |jws| else first);
      return false, header, payload, signature;
    }
    SplitAt(jws, first, second, |jws|);
    if second >= |jws| - 1 {
      return false, header, payload, signature;
    }
    header := Span(0, first);
    payload := Span(first + 1, second - (first + 1));
    signature := Span(second + 1, |jws| - (second + 1));
    ok := true;
  }
}
