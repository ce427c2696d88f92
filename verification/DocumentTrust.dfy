/** The chain of trust on JSON documents: every value is a string looked up among the members of the
    object that a text spells. Acceptance is exactly that, as far as the texts spell such objects, except
    for where "sjwk" stands in the JWS header. */
module DocumentTrust {
  import opened Common
  import opened JsonTokens
  import opened JsonTree
  import opened CompactJws
  import opened ChainOfTrust

  /** A JSON parser: the object that a text spells, if it spells one. */
  type Documents = bytes -> Option<Json>

  /** The reader of the code yields the tokens of the object, from the first to the last. */
  ghost predicate ParserContract(o: Oracle, docs: Documents) {
    forall text: bytes {:trigger docs(text)} | docs(text).Some? ::
      var j := docs(text).value;
      IsJson(j) && j.Object? && o.tokenize(text) == Flatten(j)
  }

  lemma {:induction false} LookupIsToken(ms: Members, name: bytes)
    requires Lookup(ms, name).Some? && Lookup(ms, name).value.Leaf?
    ensures Lookup(ms, name).value.tok in FlattenMembers(ms)
  {
    if ms.name.text == name {
      assert Flatten(ms.value)[0] == ms.value.tok;
    } else {
      LookupIsToken(ms.rest, name);
    }
  }

  /** A member's token is a slice of the text. */
  lemma LookupWithin(o: Oracle, docs: Documents, text: bytes, name: bytes)
    requires o.Contract() && ParserContract(o, docs) && docs(text).Some?
    ensures var found := Lookup(docs(text).value.members, name);
            found.Some? && found.value.Leaf? ==> found.value.tok.slice.at + found.value.tok.slice.len <= |text|
  {
    var found := Lookup(docs(text).value.members, name);
    if found.Some? && found.value.Leaf? {
      LookupIsToken(docs(text).value.members, name);
      assert found.value.tok in o.tokenize(text);
    }
  }

  /** The string that the document's first member called `name` holds. */
  function StringOfDocument(o: Oracle, docs: Documents, text: bytes, name: bytes): Option<bytes>
    requires o.Contract() && ParserContract(o, docs)
  {
    match docs(text)
    case None => None
    case Some(j) =>
      LookupWithin(o, docs, text, name);
      match StringOf(Lookup(j.members, name))
      case None => None
      case Some(t) => Some(Cut(text, t.slice))
  }

  /** The members n, e and alg of a signing key: strings, none of them missing or empty. */
  function KeyOfDocument(o: Oracle, docs: Documents, text: bytes): Option<KeyTexts>
    requires o.Contract() && ParserContract(o, docs)
  {
    var n, e := StringOfDocument(o, docs, text, N), StringOfDocument(o, docs, text, E);
    match (n, e, StringOfDocument(o, docs, text, ALG))
    case (Some(n), Some(e), Some(alg)) => if n == [] || e == [] || alg == [] then None else Some(KeyTexts(n, e, alg))
    case _ => None
  }

  function DocumentReadings(o: Oracle, docs: Documents, v: Evidence): Readings
    requires o.Contract() && ParserContract(o, docs)
  {
    Readings(StringOfDocument(o, docs, v.jwsHeader, SJWK), StringOfDocument(o, docs, v.jwkHeader, KID),
             KeyOfDocument(o, docs, v.jwkPayload), StringOfDocument(o, docs, v.jwsPayload, SHA256))
  }

  ghost predicate DocumentSupports(o: Oracle, docs: Documents, manifest: bytes, jws: bytes, keys: seq<RootKey>,
                                   v: Evidence)
    requires o.Contract() && ParserContract(o, docs)
  {
    Chain(o, manifest, jws, keys, v, DocumentReadings(o, docs, v))
  }

  /** A complete chain of trust whose links are looked up in the JSON documents. */
  ghost predicate DocumentTrusted(o: Oracle, docs: Documents, manifest: bytes, jws: bytes, keys: seq<RootKey>)
    requires o.Contract() && ParserContract(o, docs)
  {
    exists v :: DocumentSupports(o, docs, manifest, jws, keys, v)
  }

  /** The same with signatures as long as the moduli they are checked with (section 8.2.2 of RFC 8017). */
  ghost predicate DocumentStrictlyTrusted(o: Oracle, docs: Documents, manifest: bytes, jws: bytes, keys: seq<RootKey>)
    requires o.Contract() && ParserContract(o, docs)
  {
    exists v :: DocumentSupports(o, docs, manifest, jws, keys, v) && FullLengths(o, keys, v)
  }

  // ----- The code's walks read documents -----

  /** The "kid" and "sha256" searches read the document. */
  lemma WalkReadsDocument(o: Oracle, docs: Documents, text: bytes, name: bytes)
    requires o.Contract() && ParserContract(o, docs) && docs(text).Some?
    ensures StringIn(o, text, 2, name) == StringOfDocument(o, docs, text, name)
  {
    TopLevelSearch(docs(text).value, name);
  }

  predicate ComesFirst(j: Json, name: bytes) {
    j.Object? && j.members.Member? && j.members.name.text == name
  }

  /** The "sjwk" search reads the document, unless "sjwk" comes first. */
  lemma SjwkWalk(o: Oracle, docs: Documents, text: bytes)
    requires o.Contract() && ParserContract(o, docs) && docs(text).Some?
    ensures !ComesFirst(docs(text).value, SJWK) ==>
              StringIn(o, text, 1, SJWK) == StringOfDocument(o, docs, text, SJWK)
    ensures ComesFirst(docs(text).value, SJWK) && Absent(docs(text).value.members.rest, SJWK) ==>
              StringIn(o, text, 1, SJWK) == None
  {
    SearchPastFirst(docs(text).value, SJWK);
  }

  /** Every member called n, e or alg holds a string. */
  predicate StringKeys(ms: Members) {
    match ms
    case NoMembers => true
    case Member(n, v, rest) => (IsKeyText(n.text) ==> v.Leaf? && v.tok.kind.String?) && StringKeys(rest)
  }

  lemma {:induction false} StringKeysLookup(ms: Members, name: bytes)
    requires StringKeys(ms) && IsKeyText(name)
    ensures PlainKeys(ms)
    ensures Lookup(ms, name).Some? ==> StringOf(Lookup(ms, name)).Some?
  {
    if ms.Member? {
      StringKeysLookup(ms.rest, name);
    }
  }

  /** With distinct names it suffices that the lookups give strings. */
  lemma {:induction false} LookupStringKeys(ms: Members)
    requires DistinctKeys(ms)
    requires forall name {:trigger Lookup(ms, name)} | IsKeyText(name) && Lookup(ms, name).Some? ::
               StringOf(Lookup(ms, name)).Some?
    ensures StringKeys(ms)
  {
    if ms.Member? {
      forall name {:trigger Lookup(ms.rest, name)} | IsKeyText(name) && Lookup(ms.rest, name).Some?
        ensures StringOf(Lookup(ms.rest, name)).Some?
      {
        assert Lookup(ms, name) == Lookup(ms.rest, name);
      }
      assert IsKeyText(ms.name.text) ==> Lookup(ms, ms.name.text) == Some(ms.value);
      LookupStringKeys(ms.rest);
    }
  }

  /** The key search reads the document, if n, e and alg are named at most once and hold strings. */
  lemma KeyWalk(o: Oracle, docs: Documents, text: bytes)
    requires o.Contract() && ParserContract(o, docs) && docs(text).Some?
    requires DistinctKeys(docs(text).value.members) && StringKeys(docs(text).value.members)
    ensures KeyTextsIn(o, text, 0) == KeyOfDocument(o, docs, text)
  {
    var ms := docs(text).value.members;
    StringKeysLookup(ms, N);
    StringKeysLookup(ms, E);
    StringKeysLookup(ms, ALG);
    KeySearch(docs(text).value);
  }

  /** A document that has a key has string values under all three names. */
  lemma KeyIsStrings(o: Oracle, docs: Documents, text: bytes)
    requires o.Contract() && ParserContract(o, docs) && KeyOfDocument(o, docs, text).Some?
    requires DistinctKeys(docs(text).value.members)
    ensures StringKeys(docs(text).value.members)
  {
    LookupStringKeys(docs(text).value.members);
  }

  // ----- Acceptance is the chain of trust on documents -----

  /** Where the decoded texts spell objects, "sjwk" is named once if it comes first, and so are the
      members of the key: names are unique (section 4 of RFC 7515, section 4 of RFC 7517). */
  ghost predicate NamedOnce(o: Oracle, docs: Documents, jws: bytes)
    requires o.Contract() && ParserContract(o, docs)
  {
    match Split(jws)
    case None => true
    case Some(p) =>
      var header := o.decodeUrl(p.header, JWS_HEADER_SIZE);
      header.ok && docs(header.written).Some? ==> NamedOnceIn(o, docs, header.written)
  }

  ghost predicate NamedOnceIn(o: Oracle, docs: Documents, header: bytes)
    requires o.Contract() && ParserContract(o, docs) && docs(header).Some?
  {
    var j := docs(header).value;
    && (ComesFirst(j, SJWK) ==> Absent(j.members.rest, SJWK))
    && match JwkNamed(o, docs, header)
       case None => true
       case Some(q) => NamedOnceInJwk(o, docs, q)
  }

  ghost predicate NamedOnceInJwk(o: Oracle, docs: Documents, q: Parts)
    requires ParserContract(o, docs)
  {
    var payload := o.decodeUrl(q.payload, JWK_PAYLOAD_SIZE);
    payload.ok && docs(payload.written).Some? ==> DistinctKeys(docs(payload.written).value.members)
  }

  /** The parts of the signed signing key that the header names. */
  function JwkNamed(o: Oracle, docs: Documents, header: bytes): Option<Parts>
    requires o.Contract() && ParserContract(o, docs)
  {
    match StringOfDocument(o, docs, header, SJWK)
    case None => None
    case Some(sjwk) => Split(sjwk)
  }

  /** A decoded text spells an object. */
  predicate Spells(docs: Documents, d: Output) { d.ok ==> docs(d.written).Some? }

  /** The decoded texts are JSON objects, and n, e and alg hold strings. */
  ghost predicate WellFormed(o: Oracle, docs: Documents, jws: bytes)
    requires o.Contract() && ParserContract(o, docs)
  {
    match Split(jws)
    case None => true
    case Some(p) =>
      var header := o.decodeUrl(p.header, JWS_HEADER_SIZE);
      && Spells(docs, header) && Spells(docs, o.decodeUrl(p.payload, JWS_PAYLOAD_SIZE))
      && (header.ok ==>
            match JwkNamed(o, docs, header.written)
            case None => true
            case Some(q) => WellFormedJwk(o, docs, q))
  }

  ghost predicate WellFormedJwk(o: Oracle, docs: Documents, q: Parts)
    requires ParserContract(o, docs)
  {
    var payload := o.decodeUrl(q.payload, JWK_PAYLOAD_SIZE);
    && Spells(docs, o.decodeUrl(q.header, JWK_HEADER_SIZE)) && Spells(docs, payload)
    && (payload.ok ==> StringKeys(docs(payload.written).value.members))
  }

  /** The first member of the JWS header is "sjwk". */
  predicate SjwkFirst(o: Oracle, docs: Documents, jws: bytes) {
    match Split(jws)
    case None => false
    case Some(p) =>
      var header := o.decodeUrl(p.header, JWS_HEADER_SIZE);
      header.ok && docs(header.written).Some? && ComesFirst(docs(header.written).value, SJWK)
  }

  /** A JWS whose header starts with "sjwk", and names it once, is rejected, however good its chain of
      trust is. */
  lemma SjwkFirstIsRejected(o: Oracle, docs: Documents, manifest: bytes, jws: bytes, keys: seq<RootKey>, mem: bytes)
    requires o.Contract() && ParserContract(o, docs) && RootsFit(o, keys) && |mem| >= SCRATCH_USED
    requires SjwkFirst(o, docs, jws)
    requires var header := o.decodeUrl(Split(jws).value.header, JWS_HEADER_SIZE).written;
             Absent(docs(header).value.members.rest, SJWK)
    ensures Verdict(o, manifest, jws, keys, mem) == Rejected
  {
    var header := o.decodeUrl(Split(jws).value.header, JWS_HEADER_SIZE).written;
    assert header != [] by {
      assert |Flatten(docs(header).value)| > 0;
    }
    SjwkWalk(o, docs, header);
  }

  /** Both readings of a chain's texts are the same, if "sjwk" is read the same way. */
  lemma ReadingsAgree(o: Oracle, docs: Documents, manifest: bytes, jws: bytes, keys: seq<RootKey>, v: Evidence,
                      r: Readings)
    requires o.Contract() && ParserContract(o, docs) && Chain(o, manifest, jws, keys, v, r)
    requires NamedOnce(o, docs, jws) && WellFormed(o, docs, jws) && r.sjwk == DocumentReadings(o, docs, v).sjwk
    ensures WalkReadings(o, v).(sjwk := None) == DocumentReadings(o, docs, v).(sjwk := None)
  {
    SplitOfJoin(v.jws);
    SplitOfJoin(v.jwk);
    assert JwkNamed(o, docs, v.jwsHeader) == Some(v.jwk) && WellFormedJwk(o, docs, v.jwk);
    WalkReadsDocument(o, docs, v.jwkHeader, KID);
    KeyWalk(o, docs, v.jwkPayload);
    WalkReadsDocument(o, docs, v.jwsPayload, SHA256);
  }

  /** Whatever supports a chain of documents, those documents are well-formed. */
  lemma SupportingIsWellFormed(o: Oracle, docs: Documents, manifest: bytes, jws: bytes, keys: seq<RootKey>,
                               v: Evidence)
    requires o.Contract() && ParserContract(o, docs) && NamedOnce(o, docs, jws)
    requires DocumentSupports(o, docs, manifest, jws, keys, v)
    ensures WellFormed(o, docs, jws)
  {
    SplitOfJoin(v.jws);
    SplitOfJoin(v.jwk);
    assert JwkNamed(o, docs, v.jwsHeader) == Some(v.jwk);
    KeyIsStrings(o, docs, v.jwkPayload);
  }

  /** Evidence for the chain that the code's walks read is evidence for the chain that the documents
      spell, and the other way round. */
  lemma SameEvidence(o: Oracle, docs: Documents, manifest: bytes, jws: bytes, keys: seq<RootKey>, v: Evidence)
    requires o.Contract() && ParserContract(o, docs) && NamedOnce(o, docs, jws)
    ensures DocumentSupports(o, docs, manifest, jws, keys, v) && !SjwkFirst(o, docs, jws)
       <==> Supports(o, manifest, jws, keys, v) && WellFormed(o, docs, jws)
  {
    if Supports(o, manifest, jws, keys, v) && WellFormed(o, docs, jws) {
      SplitOfJoin(v.jws);
      SjwkWalk(o, docs, v.jwsHeader);
      ReadingsAgree(o, docs, manifest, jws, keys, v, WalkReadings(o, v));
    }
    if DocumentSupports(o, docs, manifest, jws, keys, v) && !SjwkFirst(o, docs, jws) {
      SupportingIsWellFormed(o, docs, manifest, jws, keys, v);
      SplitOfJoin(v.jws);
      SjwkWalk(o, docs, v.jwsHeader);
      ReadingsAgree(o, docs, manifest, jws, keys, v, DocumentReadings(o, docs, v));
    }
  }

  /** The documents spell a complete chain of trust and "sjwk" does not come first, exactly if the code's
      walks read such a chain and the documents are well-formed. */
  lemma TrustedIffDocumentTrusted(o: Oracle, docs: Documents, manifest: bytes, jws: bytes, keys: seq<RootKey>)
    requires o.Contract() && ParserContract(o, docs) && NamedOnce(o, docs, jws)
    ensures DocumentTrusted(o, docs, manifest, jws, keys) && !SjwkFirst(o, docs, jws)
       <==> Trusted(o, manifest, jws, keys) && WellFormed(o, docs, jws)
  {
    if DocumentTrusted(o, docs, manifest, jws, keys) && !SjwkFirst(o, docs, jws) {
      var v :| DocumentSupports(o, docs, manifest, jws, keys, v);
      SameEvidence(o, docs, manifest, jws, keys, v);
    }
    if Trusted(o, manifest, jws, keys) && WellFormed(o, docs, jws) {
      var v :| Supports(o, manifest, jws, keys, v);
      SameEvidence(o, docs, manifest, jws, keys, v);
    }
  }

  /** Exactly: the documents spell a complete chain of trust and "sjwk" is not the first member of the
      JWS header, if and only if the code accepts, is covered, and the documents are well-formed. */
  lemma AcceptedIffDocumentTrusted(o: Oracle, docs: Documents, manifest: bytes, jws: bytes, keys: seq<RootKey>,
                                   mem: bytes)
    requires o.Contract() && ParserContract(o, docs) && NamedOnce(o, docs, jws)
    requires RootsFit(o, keys) && |mem| >= SCRATCH_USED
    ensures DocumentTrusted(o, docs, manifest, jws, keys) && !SjwkFirst(o, docs, jws)
       <==> Verdict(o, manifest, jws, keys, mem) == Authentic && Covered(o, jws, keys) && WellFormed(o, docs, jws)
  {
    TrustedIffAcceptedAndCovered(o, manifest, jws, keys, mem);
    TrustedIffDocumentTrusted(o, docs, manifest, jws, keys);
  }

  /** The same for the strict chain of trust, whose extra condition is that both decoded signatures have
      exactly the length of the modulus. */
  lemma AcceptedIffDocumentStrictlyTrusted(o: Oracle, docs: Documents, manifest: bytes, jws: bytes,
                                           keys: seq<RootKey>, mem: bytes)
    requires o.Contract() && ParserContract(o, docs) && NamedOnce(o, docs, jws)
    requires RootsFit(o, keys) && |mem| >= SCRATCH_USED
    ensures DocumentStrictlyTrusted(o, docs, manifest, jws, keys) && !SjwkFirst(o, docs, jws)
       <==> && Verdict(o, manifest, jws, keys, mem) == Authentic && Covered(o, jws, keys)
            && ExactLengths(o, jws, keys) && WellFormed(o, docs, jws)
  {
    StrictlyTrustedIff(o, manifest, jws, keys, mem);
    if DocumentStrictlyTrusted(o, docs, manifest, jws, keys) && !SjwkFirst(o, docs, jws) {
      var v :| DocumentSupports(o, docs, manifest, jws, keys, v) && FullLengths(o, keys, v);
      SameEvidence(o, docs, manifest, jws, keys, v);
    }
    if StrictlyTrusted(o, manifest, jws, keys) && WellFormed(o, docs, jws) {
      var v :| Supports(o, manifest, jws, keys, v) && FullLengths(o, keys, v);
      SameEvidence(o, docs, manifest, jws, keys, v);
    }
  }
}
