/** What authenticating an update manifest means: the two-level chain of trust from a root key over
    the signing key to the manifest hash, and the verdict `AzureIoTJWS_ManifestAuthenticate` reaches,
    both as functions of values. Cryptography, Base64 and the JSON tokenizer are oracles. */
module ChainOfTrust {
  import opened Common
  import opened JsonTokens
  import opened CompactJws

  // The region sizes of `source/interface/azure_iot_jws.h`.
  const JWS_HEADER_SIZE: nat := 1400
  const JWS_PAYLOAD_SIZE: nat := 60
  const JWK_HEADER_SIZE: nat := 48
  const JWK_PAYLOAD_SIZE: nat := 700
  const SIGNATURE_SIZE: nat := 400
  const KEY_N_SIZE: nat := 384
  const KEY_E_SIZE: nat := 10
  const SHA256_SIZE: nat := 32
  const SHA_SCRATCH_SIZE: nat := 384 + 32

  datatype RootKey = RootKey(id: bytes, n: bytes, e: bytes)

  /** The functions that the Azure SDK and Mbed TLS provide. */
  datatype Oracle = Oracle(
    tokenize: bytes -> Tokens,
    decodeUrl: (bytes, nat) -> Output,
    decode: (bytes, nat) -> Output,
    sha256: bytes -> bytes,
    importKey: (bytes, bytes) -> bool,
    modulusLen: bytes -> nat,
    rsaVerify: (bytes, bytes, bytes, bytes) -> bool)
  {
    /** Tokens lie inside their text, decodes stay inside their region, a SHA-256 has 32 bytes, and an
        imported modulus has at most the bytes it was given (leading zeros do not count). */
    ghost predicate Contract() {
      && tokenize([]) == []
      && (forall s: bytes {:trigger tokenize(s)} :: SlicesWithin(tokenize(s), |s|))
      && (forall s: bytes, cap: nat :: |decodeUrl(s, cap).written| <= cap)
      && (forall s: bytes, cap: nat :: |decode(s, cap).written| <= cap)
      && (forall s: bytes :: |sha256(s)| == SHA256_SIZE)
      && (forall n: bytes {:trigger modulusLen(n)} :: modulusLen(n) <= |n|)
    }
  }

  /** The string value of one property of a JSON text. */
  function StringIn(o: Oracle, text: bytes, lead: nat, name: bytes): (r: Option<bytes>)
    requires o.Contract() && lead > 0
    ensures r.Some? ==> text != []
  {
    var toks := o.tokenize(text);
    match FindString(toks, lead, name)
    case None => None
    case Some(m) =>
      assert toks[m - 1] in toks;
      Some(Cut(text, toks[m - 1].slice))
  }

  /** The Base64 texts of a signing key, and its algorithm. */
  datatype KeyTexts = KeyTexts(n: bytes, e: bytes, alg: bytes)

  /** What the parts of a key denote in `mem`. */
  function TextsAt(mem: bytes, p: KeyParts): KeyTexts
    requires PartsWithin(p, |mem|)
  {
    KeyTexts(Cut(mem, p.n), Cut(mem, p.e), Cut(mem, p.alg))
  }

  function KeyTextsIn(o: Oracle, text: bytes, next: nat): (r: Option<KeyTexts>)
    requires o.Contract()
    ensures r.Some? ==> text != []
  {
    var toks := o.tokenize(text);
    match KeyPartsFrom(toks, next)
    case None => None
    case Some(p) =>
      PartsAreSlices(toks, next + 2, NO_PARTS, |text|);
      Some(TextsAt(text, p))
  }

  /** The RSA check: the signature read is as long as the modulus, whatever was decoded. */
  predicate Verified(o: Oracle, n: bytes, e: bytes, input: bytes, signature: bytes)
    requires o.modulusLen(n) <= |signature|
  {
    o.importKey(n, e) && o.rsaVerify(n, e, o.sha256(input), signature[..o.modulusLen(n)])
  }

  /** The first listed root key called `kid`. */
  function RootCalled(keys: seq<RootKey>, kid: bytes): (r: Option<nat>)
    ensures r.Some? ==>
              && r.value < |keys| && keys[r.value].id == kid
              && forall i | 0 <= i < r.value :: keys[i].id != kid
    ensures r.None? ==> forall i | 0 <= i < |keys| :: keys[i].id != kid
  {
    if keys == [] then None
    else if keys[0].id == kid then Some(0)
    else
      match RootCalled(keys[1..], kid)
      case None => None
      case Some(i) => Some(i + 1)
  }

  // ----- The chain of trust -----

  /** Everything a reader needs to check the chain by hand. */
  datatype Evidence = Evidence(
    jws: Parts, jwsHeader: bytes, jwsPayload: bytes, jwsSignature: bytes,
    jwk: Parts, jwkHeader: bytes, jwkPayload: bytes, jwkSignature: bytes,
    root: nat, key: KeyTexts, n: bytes, e: bytes, shaText: bytes)

  /** `signature` is long enough for the modulus, and its bytes up to there verify the hash of `input`
      under the key. */
  predicate Signed(o: Oracle, n: bytes, e: bytes, input: bytes, signature: bytes) {
    && o.modulusLen(n) <= |signature|
    && o.importKey(n, e) && o.rsaVerify(n, e, o.sha256(input), signature[..o.modulusLen(n)])
  }

  /** What is read from the JSON texts of a chain: two strings from the headers, the signing key from
      the JWK payload and the hash from the JWS payload. */
  datatype Readings = Readings(sjwk: Option<bytes>, kid: Option<bytes>, key: Option<KeyTexts>, sha: Option<bytes>)

  /** What the token walks of the code read; `DocumentTrust` has the reading by lookup. */
  function WalkReadings(o: Oracle, v: Evidence): Readings
    requires o.Contract()
  {
    Readings(StringIn(o, v.jwsHeader, 1, SJWK), StringIn(o, v.jwkHeader, 2, KID),
             KeyTextsIn(o, v.jwkPayload, 0), StringIn(o, v.jwsPayload, 2, SHA256))
  }

  /** A root key signs the signing key. */
  ghost predicate SigningKeyTrusted(o: Oracle, keys: seq<RootKey>, v: Evidence, r: Readings) {
    && o.decodeUrl(v.jwk.header, JWK_HEADER_SIZE) == Output(true, v.jwkHeader)
    && o.decodeUrl(v.jwk.payload, JWK_PAYLOAD_SIZE) == Output(true, v.jwkPayload)
    && o.decodeUrl(v.jwk.signature, SIGNATURE_SIZE) == Output(true, v.jwkSignature)
    && v.root < |keys|
    && r.kid == Some(keys[v.root].id)
    && (forall i | 0 <= i < v.root :: keys[i].id != keys[v.root].id)
    && Signed(o, keys[v.root].n, keys[v.root].e, SigningInput(v.jwk), v.jwkSignature)
    && r.key == Some(v.key)
    && v.key.alg == RS256
    && o.decode(v.key.n, KEY_N_SIZE) == Output(true, v.n)
    && o.decode(v.key.e, KEY_E_SIZE) == Output(true, v.e)
  }

  /** The signing key signs the hash of the manifest. */
  ghost predicate ManifestTrusted(o: Oracle, manifest: bytes, v: Evidence, r: Readings) {
    && o.decodeUrl(v.jws.payload, JWS_PAYLOAD_SIZE) == Output(true, v.jwsPayload)
    && o.decodeUrl(v.jws.signature, SIGNATURE_SIZE) == Output(true, v.jwsSignature)
    && Signed(o, v.n, v.e, SigningInput(v.jws), v.jwsSignature)
    && r.sha == Some(v.shaText)
    && o.decode(v.shaText, SHA256_SIZE) == Output(true, o.sha256(manifest))
  }

  /** The chain behind a JWS, as far as its JSON texts read `r`. */
  ghost predicate Chain(o: Oracle, manifest: bytes, jws: bytes, keys: seq<RootKey>, v: Evidence, r: Readings) {
    && Compact(v.jws) && Join(v.jws) == jws
    && o.decodeUrl(v.jws.header, JWS_HEADER_SIZE) == Output(true, v.jwsHeader)
    && Compact(v.jwk) && r.sjwk == Some(Join(v.jwk))
    && SigningKeyTrusted(o, keys, v, r)
    && ManifestTrusted(o, manifest, v, r)
  }

  ghost predicate Supports(o: Oracle, manifest: bytes, jws: bytes, keys: seq<RootKey>, v: Evidence)
    requires o.Contract()
  {
    Chain(o, manifest, jws, keys, v, WalkReadings(o, v))
  }

  ghost predicate Trusted(o: Oracle, manifest: bytes, jws: bytes, keys: seq<RootKey>)
    requires o.Contract()
  {
    exists v :: Supports(o, manifest, jws, keys, v)
  }

  lemma SigningKeyIsUnique(o: Oracle, keys: seq<RootKey>, v: Evidence, w: Evidence)
    requires o.Contract() && v.jwk == w.jwk
    requires SigningKeyTrusted(o, keys, v, WalkReadings(o, v)) && SigningKeyTrusted(o, keys, w, WalkReadings(o, w))
    ensures v.root == w.root && v.key == w.key && v.n == w.n && v.e == w.e
    ensures v.jwkHeader == w.jwkHeader && v.jwkPayload == w.jwkPayload && v.jwkSignature == w.jwkSignature
  {
  }

  /** There is at most one chain behind a JWS: one root key, one signing key and one manifest hash. */
  lemma ChainIsUnique(o: Oracle, m1: bytes, m2: bytes, jws: bytes, keys: seq<RootKey>, v: Evidence, w: Evidence)
    requires o.Contract() && Supports(o, m1, jws, keys, v) && Supports(o, m2, jws, keys, w)
    ensures v == w && o.sha256(m1) == o.sha256(m2)
  {
    SplitOfJoin(v.jws);
    SplitOfJoin(w.jws);
    SplitOfJoin(v.jwk);
    SplitOfJoin(w.jwk);
    SigningKeyIsUnique(o, keys, v, w);
  }

  // ----- The verdict of the code -----

  /** `Indeterminate` means that the C code goes on with a JSON reader it never initialized, because
      `AzureIoTJSONReader_Init` refused an empty text and its result was dropped. */
  datatype Outcome = Authentic | Rejected | Indeterminate

  // The layout of the scratch buffer.
  const JWK_PAYLOAD_AT: nat := JWS_HEADER_SIZE
  const REUSABLE_AT: nat := JWK_PAYLOAD_AT + JWK_PAYLOAD_SIZE
  const JWK_SIGNATURE_AT: nat := REUSABLE_AT + JWK_HEADER_SIZE
  const SHA_SCRATCH_AT: nat := JWK_SIGNATURE_AT + SIGNATURE_SIZE
  const JWS_SIGNATURE_AT: nat := REUSABLE_AT + JWS_PAYLOAD_SIZE
  const KEY_N_AT: nat := JWS_SIGNATURE_AT + SIGNATURE_SIZE
  const KEY_E_AT: nat := KEY_N_AT + KEY_N_SIZE
  const MANIFEST_SHA_AT: nat := KEY_E_AT + KEY_E_SIZE
  const PARSED_SHA_AT: nat := MANIFEST_SHA_AT + SHA256_SIZE
  const SCRATCH_USED: nat := PARSED_SHA_AT + SHA256_SIZE

  /** Where each region starts and ends. In the first phase the JWS header, the JWK payload, the JWK header,
      the JWK signature and the 32 bytes of a hash follow each other. In the second one the JWS payload,
      the JWS signature, n, e and two hashes follow each other from 2100 on, but the hash of the RSA check
      still goes to 2548: behind the 384 signature bytes that can be read, and over the first bytes of n. */
  lemma Layout()
    ensures JWK_PAYLOAD_AT == 1400 && REUSABLE_AT == 2100 && SCRATCH_USED == 3018
    ensures JWK_SIGNATURE_AT == 2148 == REUSABLE_AT + 48 && SHA_SCRATCH_AT == 2548 == JWK_SIGNATURE_AT + 400
    ensures JWS_SIGNATURE_AT == 2160 == REUSABLE_AT + 60 && KEY_N_AT == 2560 == JWS_SIGNATURE_AT + 400
    ensures KEY_E_AT == 2944 == KEY_N_AT + 384 && MANIFEST_SHA_AT == 2954 == KEY_E_AT + 10 && PARSED_SHA_AT == 2986
    ensures JWS_SIGNATURE_AT + 384 <= SHA_SCRATCH_AT < KEY_N_AT < SHA_SCRATCH_AT + SHA256_SIZE
  {
  }

  /** Every listed modulus fits the region its signature is read from. */
  ghost predicate RootsFit(o: Oracle, keys: seq<RootKey>) {
    forall i | 0 <= i < |keys| :: o.modulusLen(keys[i].n) <= SIGNATURE_SIZE
  }

  /** The bytes of the JWK signature region at the first RSA check. Output stops at the first of
      the three JWK parts that fails, and the caller goes on regardless, so the region may still
      hold what it held `before` the call. */
  function JwkSignatureSeen(o: Oracle, jwk: Parts, before: bytes): (r: bytes)
    requires o.Contract() && |before| == SIGNATURE_SIZE
    ensures |r| == SIGNATURE_SIZE
  {
    if o.decodeUrl(jwk.payload, JWK_PAYLOAD_SIZE).ok then
      var sig := o.decodeUrl(jwk.signature, SIGNATURE_SIZE).written;
      sig + before[|sig|..]
    else before
  }

  /** The bytes from the start of the JWS signature region up to the hash scratch at the second RSA
      check: a decoded signature that is too short is continued by the JWK signature region, which
      starts 12 bytes earlier. */
  function JwsSignatureSeen(sig: bytes, jwkSeen: bytes): (r: bytes)
    requires |jwkSeen| == SIGNATURE_SIZE
    ensures |r| >= KEY_N_SIZE
  {
    if |sig| <= SHA_SCRATCH_AT - JWS_SIGNATURE_AT
    then sig + jwkSeen[JWS_SIGNATURE_AT - JWK_SIGNATURE_AT + |sig|..]
    else sig
  }

  /** Of the scratch buffer's prior content `mem`, only the JWK signature region can matter. */
  function Verdict(o: Oracle, manifest: bytes, jws: bytes, keys: seq<RootKey>, mem: bytes): Outcome
    requires o.Contract() && RootsFit(o, keys) && |mem| >= SCRATCH_USED
  {
    match Split(jws)
    case None => Rejected
    case Some(p) => PartsVerdict(o, manifest, keys, mem[JWK_SIGNATURE_AT..SHA_SCRATCH_AT], p)
  }

  /** The verdict once the JWS has been split. */
  function PartsVerdict(o: Oracle, manifest: bytes, keys: seq<RootKey>, before: bytes, p: Parts): Outcome
    requires o.Contract() && RootsFit(o, keys) && |before| == SIGNATURE_SIZE
  {
    var header := o.decodeUrl(p.header, JWS_HEADER_SIZE);
    if !header.ok then Rejected
    else if header.written == [] then Indeterminate
    else HeaderVerdict(o, manifest, keys, before, p, header.written)
  }

  /** The verdict once the JWS header has been decoded. */
  function HeaderVerdict(o: Oracle, manifest: bytes, keys: seq<RootKey>, before: bytes, p: Parts,
                         header: bytes): Outcome
    requires o.Contract() && RootsFit(o, keys) && |before| == SIGNATURE_SIZE
  {
    match JwkIn(o, header)
    case None => Rejected
    case Some(q) => JwkVerdict(o, manifest, keys, before, p, header, q)
  }

  /** The parts of the signed signing key named by the JWS header. */
  function JwkIn(o: Oracle, header: bytes): Option<Parts>
    requires o.Contract()
  {
    match StringIn(o, header, 1, SJWK)
    case None => None
    case Some(sjwk) => Split(sjwk)
  }

  /** Where the search for the key parts looks: in the decoded JWK payload, or, when that could not
      be decoded or is empty, on in the JWS header right behind the value of "sjwk". */
  function KeyTextsSeen(o: Oracle, header: bytes, payload: Output): Option<KeyTexts>
    requires o.Contract() && StringIn(o, header, 1, SJWK).Some?
  {
    if payload.ok && payload.written != [] then KeyTextsIn(o, payload.written, 0)
    else KeyTextsIn(o, header, FindString(o.tokenize(header), 1, SJWK).value)
  }

  /** The root key that a decoded JWK header names. */
  function RootIn(o: Oracle, keys: seq<RootKey>, header: bytes): (r: Option<nat>)
    requires o.Contract()
    ensures r.Some? ==> r.value < |keys|
  {
    match StringIn(o, header, 2, KID)
    case None => None
    case Some(kid) => RootCalled(keys, kid)
  }

  /** The verdict once the JWS header and the signing key have been taken apart. */
  function JwkVerdict(o: Oracle, manifest: bytes, keys: seq<RootKey>, before: bytes, p: Parts, header: bytes,
                      q: Parts): Outcome
    requires o.Contract() && RootsFit(o, keys) && |before| == SIGNATURE_SIZE && JwkIn(o, header) == Some(q)
  {
    var jwkHeader := o.decodeUrl(q.header, JWK_HEADER_SIZE);
    if !jwkHeader.ok || jwkHeader.written == [] then Indeterminate
    else
      match RootIn(o, keys, jwkHeader.written)
      case None => Rejected
      case Some(k) =>
        match KeyTextsSeen(o, header, o.decodeUrl(q.payload, JWK_PAYLOAD_SIZE))
        case None => Rejected
        case Some(key) => KeyVerdict(o, manifest, keys[k], p, key, SigningInput(q), JwkSignatureSeen(o, q, before))
  }

  /** The verdict once the root key and the texts of the signing key have been found. */
  function KeyVerdict(o: Oracle, manifest: bytes, root: RootKey, p: Parts, key: KeyTexts, input: bytes,
                      seen: bytes): Outcome
    requires o.Contract() && o.modulusLen(root.n) <= SIGNATURE_SIZE == |seen|
  {
    if Verified(o, root.n, root.e, input, seen) then JwsVerdict(o, manifest, p, key, seen) else Rejected
  }

  /** The verdict once the signing key has been accepted. */
  function JwsVerdict(o: Oracle, manifest: bytes, p: Parts, key: KeyTexts, jwkSeen: bytes): Outcome
    requires o.Contract() && |jwkSeen| == SIGNATURE_SIZE
  {
    var payload := o.decodeUrl(p.payload, JWS_PAYLOAD_SIZE);
    var sig := o.decodeUrl(p.signature, SIGNATURE_SIZE);
    var n, e := o.decode(key.n, KEY_N_SIZE), o.decode(key.e, KEY_E_SIZE);
    if !payload.ok || !sig.ok || !n.ok || !e.ok || key.alg != RS256 then Rejected
    else if !Verified(o, n.written, e.written, SigningInput(p), JwsSignatureSeen(sig.written, jwkSeen)) then Rejected
    else ShaVerdict(o, manifest, payload.written)
  }

  /** The verdict on the manifest hash, given the decoded JWS payload. */
  function ShaVerdict(o: Oracle, manifest: bytes, payload: bytes): Outcome
    requires o.Contract()
  {
    if payload == [] then Indeterminate
    else
      match StringIn(o, payload, 2, SHA256)
      case None => Rejected
      case Some(text) =>
        var sha := o.decode(text, SHA256_SIZE);
        if sha.ok && sha.written == o.sha256(manifest) then Authentic else Rejected
  }

  // ----- When the verdict is the chain of trust -----

  /** All three JWK parts decode, no JSON text that is searched is empty, and neither signature is
      shorter than the modulus it is checked with. A caller can evaluate this before the call. */
  ghost predicate Covered(o: Oracle, jws: bytes, keys: seq<RootKey>)
    requires o.Contract()
  {
    match Split(jws)
    case None => true
    case Some(p) =>
      var header := o.decodeUrl(p.header, JWS_HEADER_SIZE);
      header.ok ==>
        && header.written != []
        && match JwkIn(o, header.written)
           case None => true
           case Some(q) => JwkCovered(o, keys, q) && JwsCovered(o, p, q)
  }

  ghost predicate JwkCovered(o: Oracle, keys: seq<RootKey>, q: Parts)
    requires o.Contract()
  {
    var header := o.decodeUrl(q.header, JWK_HEADER_SIZE);
    var payload := o.decodeUrl(q.payload, JWK_PAYLOAD_SIZE);
    var sig := o.decodeUrl(q.signature, SIGNATURE_SIZE);
    && header.ok && header.written != [] && payload.ok && payload.written != [] && sig.ok
    && match RootIn(o, keys, header.written)
       case None => true
       case Some(k) => o.modulusLen(keys[k].n) <= |sig.written|
  }

  ghost predicate JwsCovered(o: Oracle, p: Parts, q: Parts)
    requires o.Contract()
  {
    && o.decodeUrl(p.payload, JWS_PAYLOAD_SIZE) != Output(true, [])
    && match KeyTextsIn(o, o.decodeUrl(q.payload, JWK_PAYLOAD_SIZE).written, 0)
       case None => true
       case Some(key) =>
         o.modulusLen(o.decode(key.n, KEY_N_SIZE).written) <= |o.decodeUrl(p.signature, SIGNATURE_SIZE).written|
  }

  lemma SeenStartsWithSignature(o: Oracle, q: Parts, before: bytes, n: bytes)
    requires o.Contract() && |before| == SIGNATURE_SIZE && o.decodeUrl(q.payload, JWK_PAYLOAD_SIZE).ok
    requires o.modulusLen(n) <= |o.decodeUrl(q.signature, SIGNATURE_SIZE).written|
    ensures JwkSignatureSeen(o, q, before)[..o.modulusLen(n)]
         == o.decodeUrl(q.signature, SIGNATURE_SIZE).written[..o.modulusLen(n)]
  {
  }

  lemma SecondSeenStartsWithSignature(o: Oracle, sig: bytes, jwkSeen: bytes, n: bytes)
    requires |jwkSeen| == SIGNATURE_SIZE && o.modulusLen(n) <= |sig| && o.modulusLen(n) <= KEY_N_SIZE
    ensures JwsSignatureSeen(sig, jwkSeen)[..o.modulusLen(n)] == sig[..o.modulusLen(n)]
  {
  }

  lemma TrustedManifestIsAccepted(o: Oracle, manifest: bytes, v: Evidence, jwkSeen: bytes)
    requires o.Contract() && |jwkSeen| == SIGNATURE_SIZE
    requires ManifestTrusted(o, manifest, v, WalkReadings(o, v)) && v.key.alg == RS256
    requires o.decode(v.key.n, KEY_N_SIZE) == Output(true, v.n)
    requires o.decode(v.key.e, KEY_E_SIZE) == Output(true, v.e)
    ensures JwsVerdict(o, manifest, v.jws, v.key, jwkSeen) == Authentic
  {
    SecondSeenStartsWithSignature(o, v.jwsSignature, jwkSeen, v.n);
  }

  lemma TrustedKeyIsAccepted(o: Oracle, manifest: bytes, keys: seq<RootKey>, before: bytes, v: Evidence)
    requires o.Contract() && RootsFit(o, keys) && |before| == SIGNATURE_SIZE
    requires JwkIn(o, v.jwsHeader) == Some(v.jwk)
    requires SigningKeyTrusted(o, keys, v, WalkReadings(o, v))
    ensures JwkVerdict(o, manifest, keys, before, v.jws, v.jwsHeader, v.jwk)
         == JwsVerdict(o, manifest, v.jws, v.key, JwkSignatureSeen(o, v.jwk, before))
  {
    RootCalledIsFirst(keys, v.root);
    var root := keys[v.root];
    var seen := JwkSignatureSeen(o, v.jwk, before);
    SeenStartsWithSignature(o, v.jwk, before, root.n);
    assert Verified(o, root.n, root.e, SigningInput(v.jwk), seen);
    assert KeyTextsSeen(o, v.jwsHeader, Output(true, v.jwkPayload)) == Some(v.key);
  }

  lemma RootCalledIsFirst(keys: seq<RootKey>, k: nat)
    requires k < |keys| && forall i | 0 <= i < k :: keys[i].id != keys[k].id
    ensures RootCalled(keys, keys[k].id) == Some(k)
  {
  }

  lemma SupportedIsTakenApart(o: Oracle, manifest: bytes, jws: bytes, keys: seq<RootKey>, v: Evidence)
    requires o.Contract() && Supports(o, manifest, jws, keys, v)
    ensures Split(jws) == Some(v.jws) && JwkIn(o, v.jwsHeader) == Some(v.jwk) && v.jwsHeader != []
  {
    SplitOfJoin(v.jws);
    SplitOfJoin(v.jwk);
  }

  lemma HeaderVerdictOf(o: Oracle, manifest: bytes, keys: seq<RootKey>, before: bytes, p: Parts, header: bytes,
                        q: Parts)
    requires o.Contract() && RootsFit(o, keys) && |before| == SIGNATURE_SIZE && JwkIn(o, header) == Some(q)
    ensures HeaderVerdict(o, manifest, keys, before, p, header)
         == JwkVerdict(o, manifest, keys, before, p, header, q)
  {
  }

  /** Once the JWS header and the signing key have been taken apart, only the JWK is left to judge. */
  lemma VerdictOfParts(o: Oracle, manifest: bytes, jws: bytes, keys: seq<RootKey>, mem: bytes, p: Parts,
                       header: bytes, q: Parts)
    requires o.Contract() && RootsFit(o, keys) && |mem| >= SCRATCH_USED
    requires Split(jws) == Some(p) && o.decodeUrl(p.header, JWS_HEADER_SIZE) == Output(true, header)
    requires header != [] && JwkIn(o, header) == Some(q)
    ensures Verdict(o, manifest, jws, keys, mem)
         == JwkVerdict(o, manifest, keys, mem[JWK_SIGNATURE_AT..SHA_SCRATCH_AT], p, header, q)
  {
  }

  lemma TakenApartIsAccepted(o: Oracle, manifest: bytes, jws: bytes, keys: seq<RootKey>, mem: bytes, v: Evidence)
    requires o.Contract() && RootsFit(o, keys) && |mem| >= SCRATCH_USED
    requires Split(jws) == Some(v.jws) && o.decodeUrl(v.jws.header, JWS_HEADER_SIZE) == Output(true, v.jwsHeader)
    requires v.jwsHeader != [] && JwkIn(o, v.jwsHeader) == Some(v.jwk)
    requires SigningKeyTrusted(o, keys, v, WalkReadings(o, v)) && ManifestTrusted(o, manifest, v, WalkReadings(o, v))
    ensures Verdict(o, manifest, jws, keys, mem) == Authentic
  {
    var before := mem[JWK_SIGNATURE_AT..SHA_SCRATCH_AT];
    VerdictOfParts(o, manifest, jws, keys, mem, v.jws, v.jwsHeader, v.jwk);
    TrustedKeyIsAccepted(o, manifest, keys, before, v);
    TrustedManifestIsAccepted(o, manifest, v, JwkSignatureSeen(o, v.jwk, before));
  }

  lemma SupportedIsAccepted(o: Oracle, manifest: bytes, jws: bytes, keys: seq<RootKey>, mem: bytes, v: Evidence)
    requires o.Contract() && RootsFit(o, keys) && |mem| >= SCRATCH_USED
    requires Supports(o, manifest, jws, keys, v)
    ensures Verdict(o, manifest, jws, keys, mem) == Authentic
  {
    SupportedIsTakenApart(o, manifest, jws, keys, v);
    TakenApartIsAccepted(o, manifest, jws, keys, mem, v);
  }

  lemma SupportedIsCovered(o: Oracle, manifest: bytes, jws: bytes, keys: seq<RootKey>, v: Evidence)
    requires o.Contract() && Supports(o, manifest, jws, keys, v)
    ensures Covered(o, jws, keys)
  {
    SupportedIsTakenApart(o, manifest, jws, keys, v);
    RootCalledIsFirst(keys, v.root);
    assert JwkCovered(o, keys, v.jwk);
    assert JwsCovered(o, v.jws, v.jwk);
  }

  /** Completeness: a trusted manifest is accepted, whatever the scratch buffer held before. */
  lemma TrustedIsAccepted(o: Oracle, manifest: bytes, jws: bytes, keys: seq<RootKey>, mem: bytes)
    requires o.Contract() && RootsFit(o, keys) && |mem| >= SCRATCH_USED
    requires Trusted(o, manifest, jws, keys)
    ensures Verdict(o, manifest, jws, keys, mem) == Authentic && Covered(o, jws, keys)
  {
    var v :| Supports(o, manifest, jws, keys, v);
    SupportedIsAccepted(o, manifest, jws, keys, mem, v);
    SupportedIsCovered(o, manifest, jws, keys, v);
  }

  /** The evidence behind an accepted signing key and manifest. */
  lemma EvidenceFor(o: Oracle, manifest: bytes, keys: seq<RootKey>, before: bytes, p: Parts, header: bytes, q: Parts)
    returns (v: Evidence)
    requires o.Contract() && RootsFit(o, keys) && |before| == SIGNATURE_SIZE && JwkIn(o, header) == Some(q)
    requires JwkVerdict(o, manifest, keys, before, p, header, q) == Authentic
    requires JwkCovered(o, keys, q) && JwsCovered(o, p, q)
    ensures v.jws == p && v.jwsHeader == header && v.jwk == q
    ensures SigningKeyTrusted(o, keys, v, WalkReadings(o, v)) && ManifestTrusted(o, manifest, v, WalkReadings(o, v))
  {
    var jwkHeader := o.decodeUrl(q.header, JWK_HEADER_SIZE).written;
    var k := RootIn(o, keys, jwkHeader).value;
    var jwkPayload := o.decodeUrl(q.payload, JWK_PAYLOAD_SIZE).written;
    var key := KeyTextsIn(o, jwkPayload, 0).value;
    var seen := JwkSignatureSeen(o, q, before);
    SeenStartsWithSignature(o, q, before, keys[k].n);
    assert JwsVerdict(o, manifest, p, key, seen) == Authentic;
    var n := o.decode(key.n, KEY_N_SIZE).written;
    var jwsSignature := o.decodeUrl(p.signature, SIGNATURE_SIZE).written;
    SecondSeenStartsWithSignature(o, jwsSignature, seen, n);
    var jwsPayload := o.decodeUrl(p.payload, JWS_PAYLOAD_SIZE).written;
    v := Evidence(
      p, header, jwsPayload, jwsSignature,
      q, jwkHeader, jwkPayload, o.decodeUrl(q.signature, SIGNATURE_SIZE).written,
      k, key, n, o.decode(key.e, KEY_E_SIZE).written, StringIn(o, jwsPayload, 2, SHA256).value);
  }

  /** What an accepted JWS has got past before its JWK is judged. */
  lemma AcceptedIsTakenApart(o: Oracle, manifest: bytes, jws: bytes, keys: seq<RootKey>, mem: bytes)
    returns (p: Parts, header: bytes, q: Parts)
    requires o.Contract() && RootsFit(o, keys) && |mem| >= SCRATCH_USED
    requires Verdict(o, manifest, jws, keys, mem) == Authentic
    ensures Split(jws) == Some(p) && o.decodeUrl(p.header, JWS_HEADER_SIZE) == Output(true, header)
    ensures header != [] && JwkIn(o, header) == Some(q)
    ensures JwkVerdict(o, manifest, keys, mem[JWK_SIGNATURE_AT..SHA_SCRATCH_AT], p, header, q) == Authentic
  {
    p := Split(jws).value;
    header := o.decodeUrl(p.header, JWS_HEADER_SIZE).written;
    q := JwkIn(o, header).value;
    VerdictOfParts(o, manifest, jws, keys, mem, p, header, q);
  }

  /** Evidence for a JWS that has been taken apart is evidence for the JWS. */
  lemma TakenApartSupports(o: Oracle, manifest: bytes, jws: bytes, keys: seq<RootKey>, v: Evidence)
    requires o.Contract() && Split(jws) == Some(v.jws) && JwkIn(o, v.jwsHeader) == Some(v.jwk)
    requires o.decodeUrl(v.jws.header, JWS_HEADER_SIZE) == Output(true, v.jwsHeader)
    requires SigningKeyTrusted(o, keys, v, WalkReadings(o, v)) && ManifestTrusted(o, manifest, v, WalkReadings(o, v))
    ensures Supports(o, manifest, jws, keys, v)
  {
    JoinOfSplit(jws);
    JoinOfSplit(StringIn(o, v.jwsHeader, 1, SJWK).value);
  }

  lemma CoveredParts(o: Oracle, jws: bytes, keys: seq<RootKey>, p: Parts, header: bytes, q: Parts)
    requires o.Contract() && Covered(o, jws, keys) && Split(jws) == Some(p)
    requires o.decodeUrl(p.header, JWS_HEADER_SIZE) == Output(true, header) && JwkIn(o, header) == Some(q)
    ensures JwkCovered(o, keys, q) && JwsCovered(o, p, q)
  {
  }

  /** Soundness: an accepted manifest is trusted, if the call is covered. */
  lemma AcceptedIsTrusted(o: Oracle, manifest: bytes, jws: bytes, keys: seq<RootKey>, mem: bytes)
    requires o.Contract() && RootsFit(o, keys) && |mem| >= SCRATCH_USED
    requires Verdict(o, manifest, jws, keys, mem) == Authentic && Covered(o, jws, keys)
    ensures Trusted(o, manifest, jws, keys)
  {
    var p, header, q := AcceptedIsTakenApart(o, manifest, jws, keys, mem);
    CoveredParts(o, jws, keys, p, header, q);
    var v := EvidenceFor(o, manifest, keys, mem[JWK_SIGNATURE_AT..SHA_SCRATCH_AT], p, header, q);
    TakenApartSupports(o, manifest, jws, keys, v);
  }

  /** The exact relation, for every input and every prior content of the scratch buffer. */
  lemma TrustedIffAcceptedAndCovered(o: Oracle, manifest: bytes, jws: bytes, keys: seq<RootKey>, mem: bytes)
    requires o.Contract() && RootsFit(o, keys) && |mem| >= SCRATCH_USED
    ensures Trusted(o, manifest, jws, keys)
       <==> Verdict(o, manifest, jws, keys, mem) == Authentic && Covered(o, jws, keys)
  {
    if Trusted(o, manifest, jws, keys) {
      TrustedIsAccepted(o, manifest, jws, keys, mem);
    } else if Verdict(o, manifest, jws, keys, mem) == Authentic && Covered(o, jws, keys) {
      AcceptedIsTrusted(o, manifest, jws, keys, mem);
    }
  }

  // ----- Signatures of the right length -----

  /** Both signatures are as long as the moduli they are checked with, as section 8.2.2 of RFC 8017
      demands. The code hands no length to the check, so a longer signature passes by its first bytes. */
  ghost predicate FullLengths(o: Oracle, keys: seq<RootKey>, v: Evidence) {
    && v.root < |keys|
    && |v.jwkSignature| == o.modulusLen(keys[v.root].n)
    && |v.jwsSignature| == o.modulusLen(v.n)
  }

  ghost predicate StrictlyTrusted(o: Oracle, manifest: bytes, jws: bytes, keys: seq<RootKey>)
    requires o.Contract()
  {
    exists v :: Supports(o, manifest, jws, keys, v) && FullLengths(o, keys, v)
  }

  /** Neither decoded signature differs in length from its modulus. A caller can evaluate this before the
      call. */
  ghost predicate ExactLengths(o: Oracle, jws: bytes, keys: seq<RootKey>)
    requires o.Contract()
  {
    match Split(jws)
    case None => true
    case Some(p) =>
      match JwkIn(o, o.decodeUrl(p.header, JWS_HEADER_SIZE).written)
      case None => true
      case Some(q) => JwkLength(o, keys, q) && JwsLength(o, p, q)
  }

  ghost predicate JwkLength(o: Oracle, keys: seq<RootKey>, q: Parts)
    requires o.Contract()
  {
    match RootIn(o, keys, o.decodeUrl(q.header, JWK_HEADER_SIZE).written)
    case None => true
    case Some(k) => |o.decodeUrl(q.signature, SIGNATURE_SIZE).written| == o.modulusLen(keys[k].n)
  }

  ghost predicate JwsLength(o: Oracle, p: Parts, q: Parts)
    requires o.Contract()
  {
    match KeyTextsIn(o, o.decodeUrl(q.payload, JWK_PAYLOAD_SIZE).written, 0)
    case None => true
    case Some(key) =>
      |o.decodeUrl(p.signature, SIGNATURE_SIZE).written| == o.modulusLen(o.decode(key.n, KEY_N_SIZE).written)
  }

  /** The lengths in the evidence are those that can be read off the JWS. */
  lemma LengthsOfEvidence(o: Oracle, manifest: bytes, jws: bytes, keys: seq<RootKey>, v: Evidence)
    requires o.Contract() && Supports(o, manifest, jws, keys, v)
    ensures FullLengths(o, keys, v) <==> ExactLengths(o, jws, keys)
  {
    SupportedIsTakenApart(o, manifest, jws, keys, v);
    LengthsOfParts(o, manifest, keys, v);
  }

  lemma LengthsOfParts(o: Oracle, manifest: bytes, keys: seq<RootKey>, v: Evidence)
    requires o.Contract()
    requires SigningKeyTrusted(o, keys, v, WalkReadings(o, v)) && ManifestTrusted(o, manifest, v, WalkReadings(o, v))
    ensures FullLengths(o, keys, v) <==> JwkLength(o, keys, v.jwk) && JwsLength(o, v.jws, v.jwk)
  {
    RootCalledIsFirst(keys, v.root);
  }

  /** What acceptance lacks of the strict chain of trust: exactly the two lengths. */
  lemma StrictlyTrustedIff(o: Oracle, manifest: bytes, jws: bytes, keys: seq<RootKey>, mem: bytes)
    requires o.Contract() && RootsFit(o, keys) && |mem| >= SCRATCH_USED
    ensures StrictlyTrusted(o, manifest, jws, keys)
       <==> Verdict(o, manifest, jws, keys, mem) == Authentic && Covered(o, jws, keys) && ExactLengths(o, jws, keys)
  {
    TrustedIffAcceptedAndCovered(o, manifest, jws, keys, mem);
    if StrictlyTrusted(o, manifest, jws, keys) {
      var v :| Supports(o, manifest, jws, keys, v) && FullLengths(o, keys, v);
      LengthsOfEvidence(o, manifest, jws, keys, v);
    }
    if Trusted(o, manifest, jws, keys) && ExactLengths(o, jws, keys) {
      var v :| Supports(o, manifest, jws, keys, v);
      LengthsOfEvidence(o, manifest, jws, keys, v);
    }
  }

  // ----- When the code searches a text that it never got -----

  /** Root key, signing key, algorithm and both signatures are accepted: what is left to the second
      phase is the hash in the JWS payload. */
  ghost predicate SignaturesPass(o: Oracle, keys: seq<RootKey>, before: bytes, p: Parts, header: bytes, q: Parts)
    requires o.Contract() && RootsFit(o, keys) && |before| == SIGNATURE_SIZE && JwkIn(o, header) == Some(q)
  {
    var root := RootIn(o, keys, o.decodeUrl(q.header, JWK_HEADER_SIZE).written);
    var key := KeyTextsSeen(o, header, o.decodeUrl(q.payload, JWK_PAYLOAD_SIZE));
    && root.Some? && key.Some? && key.value.alg == RS256
    && var seen := JwkSignatureSeen(o, q, before);
       var sig := o.decodeUrl(p.signature, SIGNATURE_SIZE);
       var n, e := o.decode(key.value.n, KEY_N_SIZE), o.decode(key.value.e, KEY_E_SIZE);
       && Verified(o, keys[root.value].n, keys[root.value].e, SigningInput(q), seen)
       && sig.ok && n.ok && e.ok
       && Verified(o, n.written, e.written, SigningInput(p), JwsSignatureSeen(sig.written, seen))
  }

  /** One of three texts is searched although it is empty or was never decoded: the JWS header, the
      JWK header, or, once both signatures have passed, the JWS payload. */
  ghost predicate SearchesNothing(o: Oracle, jws: bytes, keys: seq<RootKey>, before: bytes)
    requires o.Contract() && RootsFit(o, keys) && |before| == SIGNATURE_SIZE
  {
    match Split(jws)
    case None => false
    case Some(p) =>
      var header := o.decodeUrl(p.header, JWS_HEADER_SIZE);
      header.ok &&
      (header.written == []
       || match JwkIn(o, header.written)
          case None => false
          case Some(q) =>
            var jwkHeader := o.decodeUrl(q.header, JWK_HEADER_SIZE);
            || !jwkHeader.ok || jwkHeader.written == []
            || (o.decodeUrl(p.payload, JWS_PAYLOAD_SIZE) == Output(true, [])
                && SignaturesPass(o, keys, before, p, header.written, q)))
  }

  /** Exactly when a JSON reader is used that was never initialized. */
  lemma IndeterminateIff(o: Oracle, manifest: bytes, jws: bytes, keys: seq<RootKey>, mem: bytes)
    requires o.Contract() && RootsFit(o, keys) && |mem| >= SCRATCH_USED
    ensures Verdict(o, manifest, jws, keys, mem) == Indeterminate
       <==> SearchesNothing(o, jws, keys, mem[JWK_SIGNATURE_AT..SHA_SCRATCH_AT])
  {
  }

  /** A covered call never uses a reader that was not initialized, whatever the scratch buffer held. */
  lemma CoveredIsDecided(o: Oracle, manifest: bytes, jws: bytes, keys: seq<RootKey>, mem: bytes)
    requires o.Contract() && RootsFit(o, keys) && |mem| >= SCRATCH_USED && Covered(o, jws, keys)
    ensures Verdict(o, manifest, jws, keys, mem) != Indeterminate
  {
    IndeterminateIff(o, manifest, jws, keys, mem);
  }
}
