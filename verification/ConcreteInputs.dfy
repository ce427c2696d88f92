/** Concrete inputs. One JWS carries two small JSON objects and three decodes that are chosen per lemma:
    it can be trusted, or it reaches one of the places where the verdict is not the chain of trust. */
module ConcreteInputs {
  import opened Common
  import opened JsonTokens
  import opened JsonTree
  import opened CompactJws
  import opened ChainOfTrust
  import opened DocumentTrust

  // ----- The texts -----

  function Fill(b: byte, n: nat): (r: bytes)
    ensures |r| == n
  {
    seq(n, _ => b)
  }

  const HEADER_TEXT := Fill(1, 24)
  const PAYLOAD_TEXT := Fill(2, 60)
  const SHA_TEXT := Fill(9, 44)
  const JWK_TEXT: bytes := [4, 4, 4, 4, DOT, 82, 83, 50, 53, 54, 5, 5, 5, DOT, 6, 6, 6, 6]

  const JWS_PARTS := Parts(HEADER_TEXT, PAYLOAD_TEXT, [3, 3, 3, 3])
  const JWK_PARTS := Parts([4, 4, 4, 4], [82, 83, 50, 53, 54, 5, 5, 5], [6, 6, 6, 6])
  const JWS := Join(JWS_PARTS)

  /** The root modulus has two bytes. */
  const ROOT := RootKey([7], [1, 1], [1])

  // ----- The objects -----

  function Mark(k: Kind): Token { Token(k, Span(0, 0), []) }
  function Name(name: bytes): Token { Token(PropertyName, Span(0, 0), name) }
  function Text(name: bytes, slice: Span, rest: Members): Members {
    Member(Name(name), Leaf(Token(String, slice, [])), rest)
  }
  function Braces(ms: Members): Json { Object(Mark(BeginObject), ms, Mark(EndObject)) }
  function KeyMembers(at: nat): Members {
    Text(N, Span(at, 2), Text(E, Span(at, 2), Text(ALG, Span(at, 5), NoMembers)))
  }

  /** Three JWS headers: "sjwk" behind another member, "sjwk" first, and one that also has a key. */
  function Sjwk(rest: Members): Members { Text(SJWK, Span(0, 18), rest) }
  const HEADER := Text([120], Span(0, 0), Sjwk(NoMembers))
  const SJWK_FIRST := Sjwk(NoMembers)
  const WITH_KEY := Text([120], Span(0, 0), Sjwk(Text([121], Span(0, 0), Text([122], Span(0, 0), KeyMembers(5)))))

  /** Three JWK payloads: a key, a key inside the member "n", and a key whose "n" is a number. */
  const PLAIN_KEY := KeyMembers(0)
  const NESTED_KEY := Member(Name(N), Braces(KeyMembers(0)), NoMembers)
  const NUMBER_KEY := Member(Name(N), Leaf(Token(Number, Span(0, 2), [])),
                             Text(E, Span(0, 2), Text(ALG, Span(0, 5), NoMembers)))

  /** The objects that the JWS header and the JWK payload spell, and the decodes of the three JWK parts. */
  datatype Texts = Texts(header: Members, key: Members, jwkHeader: Output, jwkPayload: Output, jwkSignature: Output)

  const BAD := Output(false, [])
  const COMPLETE := Texts(HEADER, PLAIN_KEY, Output(true, [7]), Output(true, RS256), Output(true, [1, 1]))

  /** The choices the lemmas make: the JWK signature may also be too short, too long or undecodable. */
  predicate Listed(t: Texts) {
    && t.header in {HEADER, SJWK_FIRST, WITH_KEY} && t.key in {PLAIN_KEY, NESTED_KEY, NUMBER_KEY}
    && t.jwkHeader in {COMPLETE.jwkHeader, BAD} && t.jwkPayload in {COMPLETE.jwkPayload, BAD}
    && t.jwkSignature in {COMPLETE.jwkSignature, Output(true, [1]), Output(true, [1, 1, 0]), BAD}
  }

  // ----- The oracle -----

  function Doc(t: Texts, text: bytes): Option<Json> {
    if text == JWK_TEXT then Some(Braces(t.header))
    else if text == [7] then Some(Braces(Text(KID, Span(0, 1), NoMembers)))
    else if text == RS256 then Some(Braces(t.key))
    else if text == SHA_TEXT then Some(Braces(Text(SHA256, Span(0, 44), NoMembers)))
    else None
  }

  function Tokenize(t: Texts, text: bytes): Tokens {
    if Doc(t, text).Some? then Flatten(Doc(t, text).value) else []
  }

  function Docs(t: Texts): Documents { (text: bytes) => Doc(t, text) }

  /** The first 32 bytes of the text, padded with zeros. */
  function Digest(s: bytes): (r: bytes)
    ensures |r| == SHA256_SIZE
  {
    seq(SHA256_SIZE, i requires 0 <= i < SHA256_SIZE => if i < |s| then s[i] else 0)
  }

  /** A signature is good if the last of the bytes that are read is 1, and the digest is one of a text
      that starts as the JWK does (for the root key) or as the JWS does (for the signing key). */
  predicate Good(n: bytes, e: bytes, digest: bytes, signature: bytes) {
    && signature != [] && signature[|signature| - 1] == 1 && e == [1]
    && digest != [] && digest[0] == if n == ROOT.n then 4 else 1
  }

  function Fit(d: Output, cap: nat): (r: Output)
    ensures |r.written| <= cap
  {
    if |d.written| <= cap then d else BAD
  }

  function DecodeUrl(t: Texts, text: bytes, cap: nat): (r: Output)
    ensures |r.written| <= cap
  {
    if text == [] then Output(true, [])
    else if text == HEADER_TEXT then Fit(Output(true, JWK_TEXT), cap)
    else if text == PAYLOAD_TEXT then Fit(Output(true, SHA_TEXT), cap)
    else if text == [3, 3, 3, 3] then Fit(Output(true, [1]), cap)
    else if text == JWK_PARTS.header then Fit(t.jwkHeader, cap)
    else if text == JWK_PARTS.payload then Fit(t.jwkPayload, cap)
    else if text == JWK_PARTS.signature then Fit(t.jwkSignature, cap)
    else BAD
  }

  function Decode(text: bytes, cap: nat): (r: Output)
    ensures |r.written| <= cap
  {
    if text == SHA_TEXT then Fit(Output(true, Digest([])), cap)
    else if text == [82, 83] then Fit(Output(true, [1]), cap)
    else BAD
  }

  function Toy(t: Texts): Oracle {
    Oracle(
      (text: bytes) => Tokenize(t, text), (text: bytes, cap: nat) => DecodeUrl(t, text, cap), Decode, Digest,
      (n: bytes, e: bytes) => true, (n: bytes) => |n|, Good)
  }

  /** Base64 turns 2 to 4 characters into each 1 to 3 bytes (section 4 of RFC 4648): nothing decodes to
      more bytes than that, and only the empty text decodes to nothing. */
  predicate IsBase64(text: bytes, d: Output) {
    d.ok ==> |text| <= 4 * |d.written| <= 3 * |text|
  }

  ghost predicate DecodesBase64(o: Oracle) {
    && (forall s: bytes, cap: nat :: IsBase64(s, o.decodeUrl(s, cap)))
    && (forall s: bytes, cap: nat :: IsBase64(s, o.decode(s, cap)))
  }

  ghost predicate Ready(t: Texts) {
    && Toy(t).Contract() && ParserContract(Toy(t), Docs(t)) && RootsFit(Toy(t), [ROOT])
    && |t.jwkHeader.written| <= 1 && |t.jwkPayload.written| <= 5 && |t.jwkSignature.written| <= 3
  }

  // ----- The oracle keeps its contract -----

  /** Tokens of a value of strings and objects, all inside a text of this length. */
  predicate Inside(j: Json, bound: nat) {
    match j
    case Leaf(t) => IsJson(j) && t.slice.at + t.slice.len <= bound
    case Object(o, ms, c) => o == Mark(BeginObject) && c == Mark(EndObject) && MembersInside(ms, bound)
    case Array(_, _, _) => false
  }

  predicate MembersInside(ms: Members, bound: nat) {
    match ms
    case NoMembers => true
    case Member(n, v, rest) => n == Name(n.text) && Inside(v, bound) && MembersInside(rest, bound)
  }

  lemma {:induction false} InsideIsJson(j: Json, bound: nat)
    requires Inside(j, bound)
    ensures IsJson(j) && SlicesWithin(Flatten(j), bound)
  {
    if j.Object? {
      MembersInsideAreMembers(j.members, bound);
    }
  }

  lemma {:induction false} MembersInsideAreMembers(ms: Members, bound: nat)
    requires MembersInside(ms, bound)
    ensures AreMembers(ms) && SlicesWithin(FlattenMembers(ms), bound)
  {
    if ms.Member? {
      InsideIsJson(ms.value, bound);
      MembersInsideAreMembers(ms.rest, bound);
    }
  }

  lemma TextInside(name: bytes, slice: Span, rest: Members, bound: nat)
    requires slice.at + slice.len <= bound && MembersInside(rest, bound)
    ensures MembersInside(Text(name, slice, rest), bound)
  {
  }

  lemma KeyInside(at: nat, bound: nat)
    requires at + 5 <= bound
    ensures MembersInside(KeyMembers(at), bound)
  {
    TextInside(ALG, Span(at, 5), NoMembers, bound);
    TextInside(E, Span(at, 2), Text(ALG, Span(at, 5), NoMembers), bound);
  }

  lemma HeaderInside(t: Texts)
    requires Listed(t)
    ensures MembersInside(t.header, |JWK_TEXT|)
  {
    KeyInside(5, 18);
    TextInside([122], Span(0, 0), KeyMembers(5), 18);
    TextInside([121], Span(0, 0), Text([122], Span(0, 0), KeyMembers(5)), 18);
    TextInside(SJWK, Span(0, 18), NoMembers, 18);
    TextInside(SJWK, Span(0, 18), Text([121], Span(0, 0), Text([122], Span(0, 0), KeyMembers(5))), 18);
  }

  lemma PayloadInside(t: Texts)
    requires Listed(t)
    ensures MembersInside(t.key, |RS256|)
  {
    KeyInside(0, 5);
    if t.key == NESTED_KEY {
      assert Inside(Braces(KeyMembers(0)), 5);
    }
  }

  lemma DocInside(t: Texts, text: bytes)
    requires Listed(t)
    ensures Doc(t, text).Some? ==> Inside(Doc(t, text).value, |text|) && text != [] && Doc(t, text).value.Object?
  {
    HeaderInside(t);
    PayloadInside(t);
  }

  lemma ToyReady(t: Texts)
    requires Listed(t)
    ensures Ready(t) && DecodesBase64(Toy(t))
  {
    ToyTokens(t);
    ToyOutputs(t);
    ToyDocuments(t);
    assert Toy(t).modulusLen([1, 1]) == 2;
  }

  lemma ToyTokens(t: Texts)
    requires Listed(t)
    ensures var o := Toy(t);
            && o.tokenize([]) == []
            && forall text: bytes {:trigger o.tokenize(text)} :: SlicesWithin(o.tokenize(text), |text|)
  {
    var o := Toy(t);
    forall text: bytes ensures SlicesWithin(o.tokenize(text), |text|) && (text == [] ==> o.tokenize(text) == []) {
      DocInside(t, text);
      if Doc(t, text).Some? {
        InsideIsJson(Doc(t, text).value, |text|);
      }
    }
  }

  lemma ToyDocuments(t: Texts)
    requires Listed(t)
    ensures ParserContract(Toy(t), Docs(t))
  {
    forall text: bytes | Docs(t)(text).Some?
      ensures var j := Docs(t)(text).value;
              IsJson(j) && j.Object? && Toy(t).tokenize(text) == Flatten(j)
    {
      DocInside(t, text);
      InsideIsJson(Doc(t, text).value, |text|);
    }
  }

  lemma ToyOutputs(t: Texts)
    requires Listed(t)
    ensures var o := Toy(t);
            && (forall s: bytes, cap: nat :: |o.decodeUrl(s, cap).written| <= cap)
            && (forall s: bytes, cap: nat :: |o.decode(s, cap).written| <= cap)
            && (forall s: bytes :: |o.sha256(s)| == SHA256_SIZE)
            && (forall n: bytes {:trigger o.modulusLen(n)} :: o.modulusLen(n) <= |n|)
            && DecodesBase64(o)
  {
  }

  // ----- What the searches find -----

  const KEY := KeyTexts([82, 83], [82, 83], RS256)

  function KeySlices(at: nat): KeyParts { KeyParts(Span(at, 2), Span(at, 2), Span(at, 5)) }

  lemma ToyJwkParts()
    ensures Split(JWK_TEXT) == Some(JWK_PARTS) && Compact(JWK_PARTS) && Join(JWK_PARTS) == JWK_TEXT
  {
    assert Join(JWK_PARTS) == JWK_TEXT;
    SplitOfJoin(JWK_PARTS);
  }

  /** The text of the only member of a small object. */
  lemma OnlyMember(t: Texts, text: bytes, name: bytes)
    requires Ready(t) && Docs(t)(text) == Some(Braces(Text(name, Span(0, |text|), NoMembers)))
    ensures StringIn(Toy(t), text, 2, name) == StringOfDocument(Toy(t), Docs(t), text, name) == Some(text)
  {
    WalkReadsDocument(Toy(t), Docs(t), text, name);
    assert Cut(text, Span(0, |text|)) == text;
  }

  /** The header names the JWK, whose text is the whole header, once. */
  predicate HasSjwk(t: Texts) {
    && Lookup(t.header, SJWK) == Some(Leaf(Token(String, Span(0, 18), [])))
    && (ComesFirst(Braces(t.header), SJWK) ==> Absent(t.header.rest, SJWK))
  }

  lemma SjwkMember(t: Texts)
    requires Listed(t)
    ensures HasSjwk(t) && (ComesFirst(Braces(t.header), SJWK) <==> t.header == SJWK_FIRST)
  {
    assert |SJWK| == 4 && t.header != SJWK_FIRST ==> t.header.name.text == [120];
  }

  lemma SjwkText(t: Texts)
    requires Ready(t) && HasSjwk(t)
    ensures StringOfDocument(Toy(t), Docs(t), JWK_TEXT, SJWK) == Some(JWK_TEXT)
    ensures StringIn(Toy(t), JWK_TEXT, 1, SJWK)
         == if ComesFirst(Braces(t.header), SJWK) then None else Some(JWK_TEXT)
  {
    assert Docs(t)(JWK_TEXT) == Some(Braces(t.header));
    SjwkWalk(Toy(t), Docs(t), JWK_TEXT);
    assert Cut(JWK_TEXT, Span(0, 18)) == JWK_TEXT;
  }

  lemma ToyJwk(t: Texts)
    requires Ready(t) && HasSjwk(t) && !ComesFirst(Braces(t.header), SJWK)
    ensures JwkIn(Toy(t), JWK_TEXT) == Some(JWK_PARTS)
  {
    SjwkText(t);
    ToyJwkParts();
  }

  /** All three keys are found in the JWK payload. */
  lemma ToyKeySlices(t: Texts)
    requires Listed(t)
    ensures KeyPartsFrom(Flatten(Braces(t.key)), 0) == Some(KeySlices(0))
  {
    PayloadInside(t);
    InsideIsJson(Braces(t.key), 5);
    if t.key == NESTED_KEY {
      NestedKeySlices();
    } else {
      PlainKeySlices(t.key);
    }
  }

  lemma NestedKeySlices()
    requires IsJson(Braces(NESTED_KEY))
    ensures KeyPartsFrom(Flatten(Braces(NESTED_KEY)), 0) == Some(KeySlices(0))
  {
    var s, w := Token(String, Span(0, 2), []), Token(String, Span(0, 5), []);
    NestedKeyIsFound(Braces(NESTED_KEY), Braces(KeyMembers(0)), Name(N), Name(N), s, Name(E), s, Name(ALG), w);
  }

  lemma PlainKeySlices(ms: Members)
    requires (ms == PLAIN_KEY || ms == NUMBER_KEY) && IsJson(Braces(ms))
    ensures KeyPartsFrom(Flatten(Braces(ms)), 0) == Some(KeySlices(0))
  {
    KeySearch(Braces(ms));
    assert KeysNamed(ms) == KeySlices(0);
  }

  lemma TextsAre(o: Oracle, text: bytes, next: nat, p: KeyParts)
    requires o.Contract() && PartsWithin(p, |text|) && KeyPartsFrom(o.tokenize(text), next) == Some(p)
    ensures KeyTextsIn(o, text, next) == Some(TextsAt(text, p))
  {
  }

  lemma KeyTextAt()
    ensures TextsAt(RS256, KeySlices(0)) == TextsAt(JWK_TEXT, KeySlices(5)) == KEY
  {
    var inner, outer := Cut(RS256, Span(0, 5)), Cut(JWK_TEXT, Span(5, 5));
    assert forall i | 0 <= i < 5 :: inner[i] == RS256[i] && outer[i] == JWK_TEXT[5 + i];
    assert JWK_TEXT[5] == RS256[0] && JWK_TEXT[6] == RS256[1] && JWK_TEXT[7] == RS256[2];
    assert JWK_TEXT[8] == RS256[3] && JWK_TEXT[9] == RS256[4];
    assert inner == outer == RS256;
    var first, second := Cut(RS256, Span(0, 2)), Cut(JWK_TEXT, Span(5, 2));
    assert first[0] == second[0] == 82 && first[1] == second[1] == 83;
    assert first == second == KEY.n;
  }

  lemma ToyKey(t: Texts)
    requires Ready(t) && KeyPartsFrom(Flatten(Braces(t.key)), 0) == Some(KeySlices(0))
    ensures KeyTextsIn(Toy(t), RS256, 0) == Some(KEY)
  {
    assert Toy(t).tokenize(RS256) == Flatten(Braces(t.key));
    TextsAre(Toy(t), RS256, 0, KeySlices(0));
    KeyTextAt();
  }

  /** The key behind "sjwk" in the JWS header is found by a reader that stands on the value of "sjwk". */
  lemma KeyBehindSjwk(t: Texts)
    requires Ready(t) && t.header == WITH_KEY
    ensures FindString(Toy(t).tokenize(JWK_TEXT), 1, SJWK) == Some(5)
    ensures KeyTextsIn(Toy(t), JWK_TEXT, 5) == Some(KEY)
  {
    var toks := Toy(t).tokenize(JWK_TEXT);
    assert toks == Flatten(Braces(t.header));
    SjwkPlace(toks);
    KeyBehind(toks);
    TextsAre(Toy(t), JWK_TEXT, 5, KeySlices(5));
    KeyTextAt();
  }

  lemma SjwkPlace(toks: Tokens)
    requires toks == Flatten(Braces(WITH_KEY))
    ensures FindString(toks, 1, SJWK) == Some(5)
  {
    WithKeyTokens();
    assert Search(toks, 0, 1, SJWK) == Search(toks, 1, 0, SJWK);
    assert AfterChildren(toks, 2) == Some(3);
    assert FindValue(toks, 1, SJWK) == FindValue(toks, 4, SJWK) == Some(5);
  }

  lemma TextTokens(name: bytes, slice: Span, rest: Members)
    ensures FlattenMembers(Text(name, slice, rest))
         == [Name(name), Token(String, slice, [])] + FlattenMembers(rest)
  {
    var v := Leaf(Token(String, slice, []));
    assert [Name(name)] + Flatten(v) == [Name(name), Token(String, slice, [])];
  }

  lemma KeyTokens()
    ensures var n, alg := Token(String, Span(5, 2), []), Token(String, Span(5, 5), []);
            FlattenMembers(KeyMembers(5)) == [Name(N), n, Name(E), n, Name(ALG), alg]
  {
    var last := Text(ALG, Span(5, 5), NoMembers);
    TextTokens(N, Span(5, 2), Text(E, Span(5, 2), last));
    TextTokens(E, Span(5, 2), last);
    TextTokens(ALG, Span(5, 5), NoMembers);
  }

  lemma WithKeyTokens()
    ensures var x, sjwk := Token(String, Span(0, 0), []), Token(String, Span(0, 18), []);
            var n, alg := Token(String, Span(5, 2), []), Token(String, Span(5, 5), []);
            Flatten(Braces(WITH_KEY))
            == [Mark(BeginObject), Name([120]), x, Name(SJWK), sjwk, Name([121]), x, Name([122]), x,
                Name(N), n, Name(E), n, Name(ALG), alg, Mark(EndObject)]
  {
    var z := Text([122], Span(0, 0), KeyMembers(5));
    var y := Text([121], Span(0, 0), z);
    KeyTokens();
    TextTokens([122], Span(0, 0), KeyMembers(5));
    TextTokens([121], Span(0, 0), z);
    TextTokens(SJWK, Span(0, 18), y);
    TextTokens([120], Span(0, 0), Sjwk(y));
  }

  lemma KeyBehind(toks: Tokens)
    requires toks == Flatten(Braces(WITH_KEY))
    ensures KeyPartsFrom(toks, 5) == Some(KeySlices(5))
  {
    WithKeyTokens();
    var s := Span(5, 2);
    assert AfterChildren(toks, 8) == Some(9);
    assert FindParts(toks, 7, NO_PARTS) == FindParts(toks, 10, NO_PARTS);
    assert FindParts(toks, 10, NO_PARTS) == FindParts(toks, 12, NO_PARTS.(n := s));
    assert FindParts(toks, 12, NO_PARTS.(n := s)) == FindParts(toks, 14, NO_PARTS.(n := s, e := s));
    assert FindParts(toks, 14, NO_PARTS.(n := s, e := s)) == FindParts(toks, 16, KeySlices(5));
  }

  // ----- The verdicts -----

  ghost predicate Verifies(o: Oracle) {
    && o.Contract()
    && (forall n: bytes :: o.modulusLen(n) == |n|)
    && (forall n: bytes, e: bytes :: o.importKey(n, e))
    && (forall n: bytes, e: bytes, d: bytes, sig: bytes :: o.rsaVerify(n, e, d, sig) <==> Good(n, e, d, sig))
    && (forall s: bytes {:trigger o.sha256(s)} | s != [] :: o.sha256(s)[0] == s[0])
  }

  /** The second phase, with a modulus and a signature of one byte, comes down to the JWS payload. */
  lemma SecondPhase(o: Oracle, p: Parts, key: KeyTexts, payload: bytes, seen: bytes)
    requires Verifies(o) && |seen| == SIGNATURE_SIZE && key.alg == RS256 && p.header != [] && p.header[0] == 1
    requires o.decodeUrl(p.payload, JWS_PAYLOAD_SIZE) == Output(true, payload)
    requires o.decodeUrl(p.signature, SIGNATURE_SIZE) == Output(true, [1])
    requires o.decode(key.n, KEY_N_SIZE) == o.decode(key.e, KEY_E_SIZE) == Output(true, [1])
    ensures JwsVerdict(o, [], p, key, seen) == ShaVerdict(o, [], payload)
  {
    assert JwsSignatureSeen([1], seen)[..1] == [1];
  }

  /** The first phase, with a modulus of two bytes, comes down to the second byte that stands in the JWK
      signature region. */
  lemma FirstPhase(o: Oracle, root: RootKey, p: Parts, key: KeyTexts, input: bytes, seen: bytes)
    requires Verifies(o) && root == ROOT && |seen| == SIGNATURE_SIZE && input != [] && input[0] == 4
    ensures KeyVerdict(o, [], root, p, key, input, seen)
         == if seen[1] == 1 then JwsVerdict(o, [], p, key, seen) else Rejected
  {
    assert seen[..2] == [seen[0], seen[1]];
  }

  lemma BothPhases(o: Oracle, root: RootKey, p: Parts, header: bytes, q: Parts, key: KeyTexts, payload: bytes,
                   before: bytes)
    requires Verifies(o) && root == ROOT && RootsFit(o, [root]) && |before| == SIGNATURE_SIZE && key.alg == RS256
    requires JwkIn(o, header) == Some(q) && q.header != [] && q.header[0] == 4 && p.header != [] && p.header[0] == 1
    requires var h := o.decodeUrl(q.header, JWK_HEADER_SIZE);
             h.ok && h.written != [] && RootIn(o, [root], h.written) == Some(0)
    requires KeyTextsSeen(o, header, o.decodeUrl(q.payload, JWK_PAYLOAD_SIZE)) == Some(key)
    requires o.decodeUrl(p.payload, JWS_PAYLOAD_SIZE) == Output(true, payload)
    requires o.decodeUrl(p.signature, SIGNATURE_SIZE) == Output(true, [1])
    requires o.decode(key.n, KEY_N_SIZE) == o.decode(key.e, KEY_E_SIZE) == Output(true, [1])
    ensures JwkVerdict(o, [], [root], before, p, header, q)
         == if JwkSignatureSeen(o, q, before)[1] == 1 then ShaVerdict(o, [], payload) else Rejected
  {
    var seen := JwkSignatureSeen(o, q, before);
    FirstPhase(o, root, p, key, SigningInput(q), seen);
    SecondPhase(o, p, key, payload, seen);
  }

  lemma ToyVerifies(t: Texts)
    requires Ready(t)
    ensures Verifies(Toy(t))
  {
  }

  lemma ToyDecodes(t: Texts)
    requires Ready(t)
    ensures var o := Toy(t);
            && o.decodeUrl(HEADER_TEXT, JWS_HEADER_SIZE) == Output(true, JWK_TEXT)
            && o.decodeUrl(PAYLOAD_TEXT, JWS_PAYLOAD_SIZE) == Output(true, SHA_TEXT)
            && o.decodeUrl([], JWS_PAYLOAD_SIZE) == o.decodeUrl([], JWS_HEADER_SIZE) == Output(true, [])
            && o.decodeUrl([3, 3, 3, 3], SIGNATURE_SIZE) == Output(true, [1])
            && o.decodeUrl(JWK_PARTS.header, JWK_HEADER_SIZE) == t.jwkHeader
            && o.decodeUrl(JWK_PARTS.payload, JWK_PAYLOAD_SIZE) == t.jwkPayload
            && o.decodeUrl(JWK_PARTS.signature, SIGNATURE_SIZE) == t.jwkSignature
  {
  }

  lemma ToyKeyDecodes(t: Texts)
    requires Ready(t)
    ensures var o := Toy(t);
            && o.decode(KEY.n, KEY_N_SIZE) == o.decode(KEY.e, KEY_E_SIZE) == Output(true, [1])
            && o.decode(SHA_TEXT, SHA256_SIZE) == Output(true, o.sha256([]))
  {
  }

  lemma ToySha(t: Texts)
    requires Ready(t)
    ensures ShaVerdict(Toy(t), [], SHA_TEXT) == Authentic
  {
    OnlyMember(t, SHA_TEXT, SHA256);
    ToyKeyDecodes(t);
  }

  lemma ToyRoot(t: Texts)
    requires Ready(t)
    ensures RootIn(Toy(t), [ROOT], [7]) == Some(0)
  {
    OnlyMember(t, [7], KID);
  }

  /** The key is found in the JWK payload or behind "sjwk". */
  predicate HasKey(t: Texts) {
    t.jwkPayload == COMPLETE.jwkPayload || (!t.jwkPayload.ok && t.header == WITH_KEY)
  }

  lemma ToyKeySeen(t: Texts)
    requires Listed(t) && Ready(t) && HasSjwk(t) && !ComesFirst(Braces(t.header), SJWK) && HasKey(t)
    ensures StringIn(Toy(t), JWK_TEXT, 1, SJWK).Some?
    ensures KeyTextsSeen(Toy(t), JWK_TEXT, t.jwkPayload) == Some(KEY)
  {
    SjwkText(t);
    if t.jwkPayload.ok {
      ToyKeyFound(t);
    } else {
      KeyBehindSjwk(t);
    }
  }

  /** The JWS that is used: with its payload, or without. */
  function Jws(full: bool): Parts { if full then JWS_PARTS else JWS_PARTS.(payload := []) }

  /** The key is found, and the root key is named. */
  ghost predicate Searched(t: Texts)
    requires Ready(t)
  {
    && JwkIn(Toy(t), JWK_TEXT) == Some(JWK_PARTS)
    && KeyTextsSeen(Toy(t), JWK_TEXT, t.jwkPayload) == Some(KEY)
    && t.jwkHeader == Output(true, [7])
  }

  lemma ToyJwkVerdict(t: Texts, full: bool, before: bytes)
    requires Ready(t) && Searched(t) && |before| == SIGNATURE_SIZE
    ensures JwkVerdict(Toy(t), [], [ROOT], before, Jws(full), JWK_TEXT, JWK_PARTS)
         == if JwkSignatureSeen(Toy(t), JWK_PARTS, before)[1] == 1
            then ShaVerdict(Toy(t), [], if full then SHA_TEXT else []) else Rejected
  {
    ToyVerifies(t);
    ToyDecodes(t);
    ToyKeyDecodes(t);
    ToyRoot(t);
    BothPhases(Toy(t), ROOT, Jws(full), JWK_TEXT, JWK_PARTS, KEY, if full then SHA_TEXT else [], before);
  }

  /** The byte that decides: decoded, or left there by whoever used the buffer before. */
  function Decider(t: Texts, before: bytes): byte
    requires |before| == SIGNATURE_SIZE
  {
    if t.jwkPayload.ok && |t.jwkSignature.written| > 1 then t.jwkSignature.written[1] else before[1]
  }

  lemma DeciderIsSeen(t: Texts, before: bytes)
    requires Ready(t) && |before| == SIGNATURE_SIZE
    ensures JwkSignatureSeen(Toy(t), JWK_PARTS, before)[1] == Decider(t, before)
  {
    ToyDecodes(t);
  }

  lemma ToySplit(p: Parts)
    requires p == JWS_PARTS || p == JWS_PARTS.(payload := []) || p == JWS_PARTS.(header := [])
    ensures Split(Join(p)) == Some(p)
  {
    SplitOfJoin(p);
  }

  lemma ToyDecided(t: Texts, full: bool, before: bytes)
    requires Ready(t) && Searched(t) && |before| == SIGNATURE_SIZE
    ensures JwkVerdict(Toy(t), [], [ROOT], before, Jws(full), JWK_TEXT, JWK_PARTS)
         == if Decider(t, before) != 1 then Rejected else if full then Authentic else Indeterminate
  {
    ToyJwkVerdict(t, full, before);
    DeciderIsSeen(t, before);
    ToySha(t);
  }

  /** What the call yields: the JWS payload counts once the first phase has passed. */
  function Expected(t: Texts, full: bool, mem: bytes): Outcome
    requires |mem| >= SCRATCH_USED
  {
    if Decider(t, mem[JWK_SIGNATURE_AT..SHA_SCRATCH_AT]) != 1 then Rejected
    else if full then Authentic else Indeterminate
  }

  lemma ToyVerdict(t: Texts, full: bool, mem: bytes)
    requires Ready(t) && Searched(t) && |mem| >= SCRATCH_USED
    ensures Verdict(Toy(t), [], Join(Jws(full)), [ROOT], mem) == Expected(t, full, mem)
  {
    ToySplit(Jws(full));
    assert Toy(t).decodeUrl(Jws(full).header, JWS_HEADER_SIZE) == Output(true, JWK_TEXT) by {
      ToyDecodes(t);
    }
    ToyDecided(t, full, mem[JWK_SIGNATURE_AT..SHA_SCRATCH_AT]);
    VerdictOfParts(Toy(t), [], Join(Jws(full)), [ROOT], mem, Jws(full), JWK_TEXT, JWK_PARTS);
  }

  lemma ToySearched(t: Texts)
    requires Listed(t) && Ready(t) && t.header != SJWK_FIRST && HasKey(t) && t.jwkHeader.ok
    ensures Searched(t)
  {
    SjwkMember(t);
    ToyJwk(t);
    ToyKeySeen(t);
  }

  // ----- What is covered -----

  lemma ToyHeader(t: Texts)
    requires Ready(t)
    ensures Split(JWS) == Some(JWS_PARTS)
    ensures Toy(t).decodeUrl(JWS_PARTS.header, JWS_HEADER_SIZE) == Output(true, JWK_TEXT)
  {
    ToySplit(JWS_PARTS);
    ToyDecodes(t);
  }

  lemma ToyKeyFound(t: Texts)
    requires Listed(t) && Ready(t)
    ensures KeyTextsIn(Toy(t), RS256, 0) == Some(KEY)
  {
    ToyKeySlices(t);
    ToyKey(t);
  }

  lemma ToyJwkCovered(t: Texts)
    requires Ready(t) && t.jwkHeader == Output(true, [7]) && t.jwkPayload == COMPLETE.jwkPayload
    ensures JwkCovered(Toy(t), [ROOT], JWK_PARTS) <==> t.jwkSignature.ok && |t.jwkSignature.written| >= 2
  {
    ToyDecodes(t);
    ToyRoot(t);
    ToyVerifies(t);
  }

  lemma ToyJwsCovered(t: Texts)
    requires Ready(t) && t.jwkPayload == COMPLETE.jwkPayload && KeyTextsIn(Toy(t), RS256, 0) == Some(KEY)
    ensures JwsCovered(Toy(t), JWS_PARTS, JWK_PARTS)
  {
    ToyDecodes(t);
    ToyKeyDecodes(t);
    ToyVerifies(t);
  }

  lemma ToyJwkLength(t: Texts)
    requires Ready(t) && t.jwkHeader == Output(true, [7])
    ensures JwkLength(Toy(t), [ROOT], JWK_PARTS) <==> |t.jwkSignature.written| == 2
  {
    ToyDecodes(t);
    ToyRoot(t);
    ToyVerifies(t);
  }

  lemma ToyJwsLength(t: Texts)
    requires Ready(t) && t.jwkPayload == COMPLETE.jwkPayload && KeyTextsIn(Toy(t), RS256, 0) == Some(KEY)
    ensures JwsLength(Toy(t), JWS_PARTS, JWK_PARTS)
  {
    ToyDecodes(t);
    ToyKeyDecodes(t);
    ToyVerifies(t);
  }

  lemma ToyCovered(t: Texts)
    requires Ready(t) && Searched(t) && t.jwkPayload == COMPLETE.jwkPayload
    requires KeyTextsIn(Toy(t), RS256, 0) == Some(KEY)
    ensures Covered(Toy(t), JWS, [ROOT]) <==> t.jwkSignature.ok && |t.jwkSignature.written| >= 2
  {
    ToyHeader(t);
    ToyJwkCovered(t);
    ToyJwsCovered(t);
  }

  lemma ToyLengths(t: Texts)
    requires Ready(t) && Searched(t) && t.jwkPayload == COMPLETE.jwkPayload
    requires KeyTextsIn(Toy(t), RS256, 0) == Some(KEY)
    ensures ExactLengths(Toy(t), JWS, [ROOT]) <==> |t.jwkSignature.written| == 2
  {
    ToyHeader(t);
    ToyJwkLength(t);
    ToyJwsLength(t);
  }

  // ----- The departures, one by one -----

  /** Without a second byte of the JWK signature. */
  lemma ToyLeftover(t: Texts, mem: bytes)
    requires Ready(t) && Searched(t) && |mem| >= SCRATCH_USED
    requires !t.jwkPayload.ok || |t.jwkSignature.written| < 2
    ensures Verdict(Toy(t), [], JWS, [ROOT], mem) == if mem[JWK_SIGNATURE_AT + 1] == 1 then Authentic else Rejected
  {
    assert Expected(t, true, mem) == if mem[JWK_SIGNATURE_AT + 1] == 1 then Authentic else Rejected;
    ToyVerdict(t, true, mem);
  }

  /** With a JWK signature that is too short or does not decode, the same call accepts or rejects by one
      byte that was left in the JWK signature region. */
  lemma PriorContentDecides(t: Texts, mem: bytes)
    requires t == COMPLETE.(jwkSignature := Output(true, [1])) || t == COMPLETE.(jwkSignature := BAD)
    requires |mem| >= SCRATCH_USED
    ensures Ready(t) && DecodesBase64(Toy(t)) && !Covered(Toy(t), JWS, [ROOT])
    ensures Verdict(Toy(t), [], JWS, [ROOT], mem) == if mem[JWK_SIGNATURE_AT + 1] == 1 then Authentic else Rejected
  {
    ToyReady(t);
    ToySearched(t);
    ToyUncovered(t);
    ToyLeftover(t, mem);
  }

  lemma ToyUncovered(t: Texts)
    requires Listed(t) && Ready(t) && Searched(t) && t.jwkPayload == COMPLETE.jwkPayload
    requires !t.jwkSignature.ok || |t.jwkSignature.written| < 2
    ensures !Covered(Toy(t), JWS, [ROOT])
  {
    ToyKeyFound(t);
    ToyCovered(t);
  }

  /** The JWK payload does not decode, and the signing key is read from the JWS header instead. */
  lemma KeyFromJwsHeader(t: Texts, mem: bytes)
    requires t == COMPLETE.(header := WITH_KEY, jwkPayload := BAD) && |mem| >= SCRATCH_USED
    ensures Ready(t) && DecodesBase64(Toy(t)) && !Covered(Toy(t), JWS, [ROOT])
    ensures Verdict(Toy(t), [], JWS, [ROOT], mem) == if mem[JWK_SIGNATURE_AT + 1] == 1 then Authentic else Rejected
  {
    ToyReady(t);
    ToySearched(t);
    ToyLeftover(t, mem);
    ToyHeader(t);
    ToyDecodes(t);
  }

  /** With a JWK signature that starts with the bytes looked at, whatever key is listed. */
  lemma ToyAccepted(t: Texts, mem: bytes)
    requires Listed(t) && Ready(t) && Searched(t) && t.jwkPayload == COMPLETE.jwkPayload && |mem| >= SCRATCH_USED
    requires t.jwkSignature.ok && |t.jwkSignature.written| >= 2 && t.jwkSignature.written[1] == 1
    ensures Verdict(Toy(t), [], JWS, [ROOT], mem) == Authentic && Covered(Toy(t), JWS, [ROOT])
    ensures ExactLengths(Toy(t), JWS, [ROOT]) <==> |t.jwkSignature.written| == 2
  {
    ToyVerdict(t, true, mem);
    ToyKeyFound(t);
    ToyCovered(t);
    ToyLengths(t);
  }

  /** The manifest is trusted if the JWK signature is there, and strictly so if it is not too long. */
  lemma ToyIsTrusted(t: Texts)
    requires t == COMPLETE || t == COMPLETE.(jwkSignature := Output(true, [1, 1, 0]))
    ensures Ready(t) && DecodesBase64(Toy(t)) && Trusted(Toy(t), [], JWS, [ROOT])
    ensures StrictlyTrusted(Toy(t), [], JWS, [ROOT]) <==> t == COMPLETE
  {
    ToyReady(t);
    ToySearched(t);
    ToyAccepted(t, Fill(0, SCRATCH_USED));
    ToyTrust(t, Fill(0, SCRATCH_USED));
  }

  lemma ToyTrust(t: Texts, mem: bytes)
    requires Ready(t) && |mem| >= SCRATCH_USED
    requires Verdict(Toy(t), [], JWS, [ROOT], mem) == Authentic && Covered(Toy(t), JWS, [ROOT])
    ensures Trusted(Toy(t), [], JWS, [ROOT])
    ensures StrictlyTrusted(Toy(t), [], JWS, [ROOT]) <==> ExactLengths(Toy(t), JWS, [ROOT])
  {
    AcceptedIsTrusted(Toy(t), [], JWS, [ROOT], mem);
    StrictlyTrustedIff(Toy(t), [], JWS, [ROOT], mem);
  }

  /** Each of the three texts can be missing: an empty JWS header, a JWK header that does not decode, or,
      behind two good signatures, an empty JWS payload. The code then searches with a reader it never
      initialized. */
  lemma NothingToSearch(t: Texts, p: Parts, mem: bytes)
    requires |mem| >= SCRATCH_USED
    requires || (t == COMPLETE && p == JWS_PARTS.(header := []))
             || (t == COMPLETE.(jwkHeader := BAD) && p == JWS_PARTS)
             || (t == COMPLETE && p == JWS_PARTS.(payload := []))
    ensures Ready(t) && DecodesBase64(Toy(t))
    ensures Verdict(Toy(t), [], Join(p), [ROOT], mem) == Indeterminate
  {
    ToyReady(t);
    if p == JWS_PARTS.(payload := []) {
      ToySearched(t);
      ToyVerdict(t, false, mem);
    } else if p == JWS_PARTS {
      NoJwkHeader(t, mem);
    } else {
      ToySplit(p);
      ToyDecodes(t);
    }
  }

  lemma NoJwkHeader(t: Texts, mem: bytes)
    requires Ready(t) && t == COMPLETE.(jwkHeader := BAD) && |mem| >= SCRATCH_USED
    ensures Verdict(Toy(t), [], JWS, [ROOT], mem) == Indeterminate
  {
    ToySplit(JWS_PARTS);
    ToyDecodes(t);
    SjwkMember(t);
    ToyJwk(t);
    VerdictOfParts(Toy(t), [], JWS, [ROOT], mem, JWS_PARTS, JWK_TEXT, JWK_PARTS);
  }

  // ----- Documents -----

  /** What a reader would check by hand. */
  function Proof(): Evidence {
    Evidence(JWS_PARTS, JWK_TEXT, SHA_TEXT, [1], JWK_PARTS, [7], RS256, [1, 1], 0, KEY, [1], [1], SHA_TEXT)
  }

  const READINGS := Readings(Some(JWK_TEXT), Some([7]), Some(KEY), Some(SHA_TEXT))

  lemma ToySigned(t: Texts, n: bytes, input: bytes, signature: bytes)
    requires Ready(t) && signature != [] && |n| == |signature| && signature[|signature| - 1] == 1
    requires input != [] && input[0] == if n == ROOT.n then 4 else 1
    ensures Signed(Toy(t), n, [1], input, signature)
  {
    ToyVerifies(t);
    assert signature[..|n|] == signature;
  }

  lemma ToyChain(t: Texts)
    requires Ready(t) && t.jwkHeader == Output(true, [7]) && t.jwkPayload == Output(true, RS256)
    requires t.jwkSignature == Output(true, [1, 1])
    ensures Chain(Toy(t), [], JWS, [ROOT], Proof(), READINGS) && FullLengths(Toy(t), [ROOT], Proof())
  {
    ToyDecodes(t);
    ToyKeyDecodes(t);
    ToyVerifies(t);
    ToyJwkParts();
    assert Compact(JWS_PARTS);
    ToySigned(t, ROOT.n, SigningInput(JWK_PARTS), [1, 1]);
    ToySigned(t, [1], SigningInput(JWS_PARTS), [1]);
    assert SigningKeyTrusted(Toy(t), [ROOT], Proof(), READINGS);
    assert ManifestTrusted(Toy(t), [], Proof(), READINGS);
  }

  lemma ToyReadings(t: Texts)
    requires Ready(t) && HasSjwk(t) && t.key == PLAIN_KEY
    ensures DocumentReadings(Toy(t), Docs(t), Proof()) == READINGS
  {
    SjwkText(t);
    ToyKeyDocument(t);
    OnlyMember(t, [7], KID);
    OnlyMember(t, SHA_TEXT, SHA256);
  }

  lemma ToyKeyDocument(t: Texts)
    requires Ready(t) && t.key == PLAIN_KEY
    ensures KeyOfDocument(Toy(t), Docs(t), RS256) == Some(KEY)
  {
    assert Docs(t)(RS256) == Some(Braces(PLAIN_KEY));
    KeyTextAt();
  }

  lemma ToyJwkNamed(t: Texts)
    requires Ready(t) && HasSjwk(t)
    ensures Docs(t)(JWK_TEXT) == Some(Braces(t.header)) && JwkNamed(Toy(t), Docs(t), JWK_TEXT) == Some(JWK_PARTS)
  {
    SjwkText(t);
    ToyJwkParts();
  }

  lemma ToyPayload(t: Texts)
    requires Ready(t) && t.jwkPayload == COMPLETE.jwkPayload && DistinctKeys(t.key)
    ensures NamedOnceInJwk(Toy(t), Docs(t), JWK_PARTS)
    ensures WellFormedJwk(Toy(t), Docs(t), JWK_PARTS) ==> StringKeys(t.key)
  {
    ToyDecodes(t);
    assert Docs(t)(RS256) == Some(Braces(t.key));
  }

  lemma ToyNamedOnce(t: Texts)
    requires Ready(t) && HasSjwk(t) && t.jwkPayload == COMPLETE.jwkPayload && DistinctKeys(t.key)
    ensures NamedOnce(Toy(t), Docs(t), JWS)
    ensures SjwkFirst(Toy(t), Docs(t), JWS) <==> ComesFirst(Braces(t.header), SJWK)
    ensures WellFormed(Toy(t), Docs(t), JWS) ==> StringKeys(t.key)
  {
    ToyHeader(t);
    ToyJwkNamed(t);
    ToyPayload(t);
  }

  lemma ToyDistinct(t: Texts)
    requires Listed(t)
    ensures DistinctKeys(t.key) && (StringKeys(t.key) <==> t.key == PLAIN_KEY)
  {
  }

  /** A manifest with a complete chain of trust, even a strict one, on well-formed documents that is
      rejected all the same, because the JWS header names "sjwk" first; with another member before it, it
      is accepted. */
  lemma FirstSjwkDecides(t: Texts, mem: bytes)
    requires (t == COMPLETE || t == COMPLETE.(header := SJWK_FIRST)) && |mem| >= SCRATCH_USED
    ensures Ready(t) && DecodesBase64(Toy(t)) && NamedOnce(Toy(t), Docs(t), JWS)
    ensures DocumentStrictlyTrusted(Toy(t), Docs(t), [], JWS, [ROOT])
    ensures Verdict(Toy(t), [], JWS, [ROOT], mem) == if t == COMPLETE then Authentic else Rejected
  {
    ToyReady(t);
    SjwkMember(t);
    ToyChain(t);
    ToyReadings(t);
    ToyDistinct(t);
    ToyNamedOnce(t);
    assert DocumentSupports(Toy(t), Docs(t), [], JWS, [ROOT], Proof());
    if t == COMPLETE {
      AcceptedIffDocumentStrictlyTrusted(Toy(t), Docs(t), [], JWS, [ROOT], mem);
    } else {
      SjwkFirstIsRejected(Toy(t), Docs(t), [], JWS, [ROOT], mem);
    }
  }

  /** A manifest that is accepted, and covered, although the documents do not spell its chain of trust:
      the JWK payload has its key inside the member "n", or a number as its "n". */
  lemma NotSpelledIsAccepted(t: Texts, mem: bytes)
    requires t == COMPLETE.(key := NESTED_KEY) || t == COMPLETE.(key := NUMBER_KEY)
    requires |mem| >= SCRATCH_USED
    ensures Ready(t) && DecodesBase64(Toy(t)) && NamedOnce(Toy(t), Docs(t), JWS) && !SjwkFirst(Toy(t), Docs(t), JWS)
    ensures Verdict(Toy(t), [], JWS, [ROOT], mem) == Authentic && Covered(Toy(t), JWS, [ROOT])
    ensures ExactLengths(Toy(t), JWS, [ROOT]) && !DocumentTrusted(Toy(t), Docs(t), [], JWS, [ROOT])
  {
    ToyReady(t);
    ToySearched(t);
    ToyAccepted(t, mem);
    SjwkMember(t);
    ToyDistinct(t);
    ToyNamedOnce(t);
    AcceptedIffDocumentTrusted(Toy(t), Docs(t), [], JWS, [ROOT], mem);
  }
}
