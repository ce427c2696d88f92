/** `AzureIoTJWS_ManifestAuthenticate` and its helpers, run in place in one scratch buffer that every
    decoded part, hash and slice shares. */
module JwsAuthenticator {
  import opened Common
  import opened JsonTokens
  import opened CompactJws
  import opened ChainOfTrust
  import opened DocumentTrust

  /** What a pointer argument points at: memory of the caller, or a part of the scratch buffer. */
  datatype Source = Caller(data: bytes) | Scratch(span: Span)

  predicate InBounds(src: Source, bound: nat) {
    src.Scratch? ==> src.span.at + src.span.len <= bound
  }

  /** The bytes a pointer denotes while the scratch buffer holds `mem`. */
  function Load(mem: bytes, src: Source): bytes
    requires InBounds(src, |mem|)
  {
    match src
    case Caller(data) => data
    case Scratch(s) => Cut(mem, s)
  }

  /** The text does not overlap the region `[at, at + cap)` that its decoding is written to. */
  predicate Clear(src: Source, at: nat, cap: nat) {
    src.Scratch? ==> Apart(src.span, Span(at, cap))
  }

  /** A slice of a text that stands at `base` denotes the same bytes in memory and in the text. */
  lemma CutInMemory(mem: bytes, base: nat, text: bytes, s: Span)
    requires base + |text| <= |mem| && mem[base..base + |text|] == text && s.at + s.len <= |text|
    ensures Cut(mem, Offset(s, base)) == Cut(text, s)
  {
    SubCut(mem, Span(base, |text|), s);
  }

  /** `az_base64_url_decode` or `az_base64_decode`; the length stays zero when decoding fails. */
  method DecodeInto(decode: (bytes, nat) -> Output, src: Source, scratch: array<byte>, at: nat, cap: nat)
    returns (ok: bool, len: nat)
    requires at + cap <= scratch.Length && InBounds(src, scratch.Length) && Clear(src, at, cap)
    requires |decode(Load(scratch[..], src), cap).written| <= cap
    modifies scratch
    ensures var d := decode(Load(old(scratch[..]), src), cap);
            && ok == d.ok
            && len == (if ok then |d.written| else 0)
            && scratch[..] == Write(old(scratch[..]), at, d.written)
  {
    var d := decode(Load(scratch[..], src), cap);
    Store(scratch, at, d.written);
    ok, len := d.ok, if d.ok then |d.written| else 0;
  }

  ghost predicate SameOutside(a: bytes, b: bytes, at: nat, len: nat) {
    |a| == |b| && forall i | 0 <= i < |a| && !(at <= i < at + len) :: a[i] == b[i]
  }

  lemma SameSlice(a: bytes, b: bytes, at: nat, len: nat, lo: nat, hi: nat)
    requires SameOutside(a, b, at, len) && lo <= hi <= |a| && (hi <= at || at + len <= lo)
    ensures a[lo..hi] == b[lo..hi]
  {
  }

  /** The digest is where it was written, and the signature bytes before it are still there. */
  lemma DigestBehindSignature(mem: bytes, at: nat, digest: bytes, signatureAt: nat, len: nat)
    requires at + |digest| <= |mem| && signatureAt + len <= at
    ensures var r := Write(mem, at, digest);
            && SameOutside(mem, r, at, |digest|)
            && r[at..at + |digest|] == digest
            && r[signatureAt..signatureAt + len] == mem[signatureAt..at][..len]
  {
    ReadBack(mem, at, digest);
    ReadElsewhere(mem, at, digest, signatureAt, signatureAt + len);
  }

  /** `prvJWS_RS256Verify`: the key is imported before the hash is written, and the signature is read
      after it. The hash may overwrite the modulus, and may not overwrite the signature bytes read. */
  method RS256Verify(o: Oracle, scratch: array<byte>, input: Source, signatureAt: nat, n: Source, e: Source,
                     bufferAt: nat, bufferLength: nat)
    returns (ok: bool)
    requires o.Contract() && bufferAt + SHA256_SIZE <= scratch.Length
    requires InBounds(input, scratch.Length) && InBounds(n, scratch.Length) && InBounds(e, scratch.Length)
    requires signatureAt + o.modulusLen(Load(scratch[..], n)) <= bufferAt
    modifies scratch
    ensures var mem := old(scratch[..]);
            var modulus, exponent := Load(mem, n), Load(mem, e);
            && ok == (bufferLength >= SHA_SCRATCH_SIZE && o.importKey(modulus, exponent)
                      && o.rsaVerify(modulus, exponent, o.sha256(Load(mem, input)),
                                     mem[signatureAt..bufferAt][..o.modulusLen(modulus)]))
            && SameOutside(mem, scratch[..], bufferAt, SHA256_SIZE)
  {
    if bufferLength < SHA_SCRATCH_SIZE {
      return false;
    }
    ghost var mem := scratch[..];
    var modulus, exponent := Load(scratch[..], n), Load(scratch[..], e);
    if !o.importKey(modulus, exponent) {
      return false;
    }
    var digest := o.sha256(Load(scratch[..], input));
    Store(scratch, bufferAt, digest);
    DigestBehindSignature(mem, bufferAt, digest, signatureAt, o.modulusLen(modulus));
    ghost var after := scratch[..];
    var signature := scratch[signatureAt..signatureAt + o.modulusLen(modulus)];
    assert signature == after[signatureAt..signatureAt + o.modulusLen(modulus)]
                     == mem[signatureAt..bufferAt][..o.modulusLen(modulus)];
    assert scratch[bufferAt..bufferAt + SHA256_SIZE] == after[bufferAt..bufferAt + SHA256_SIZE] == digest;
    ok := o.rsaVerify(modulus, exponent, scratch[bufferAt..bufferAt + SHA256_SIZE], signature);
  }

  lemma LoadSurvives(mem: bytes, at: nat, data: bytes, src: Source)
    requires at + |data| <= |mem| && InBounds(src, |mem|) && Clear(src, at, |data|)
    ensures Load(Write(mem, at, data), src) == Load(mem, src)
  {
    if src.Scratch? {
      CutKept(mem, at, data, src.span);
    }
  }

  /** The memory `mem` after the JWK parts have been decoded, up to the first failure. */
  function WithJwk(o: Oracle, q: Parts, mem: bytes): (r: bytes)
    requires o.Contract() && |mem| >= SCRATCH_USED
    ensures |r| == |mem|
  {
    var header := o.decodeUrl(q.header, JWK_HEADER_SIZE);
    var payload := o.decodeUrl(q.payload, JWK_PAYLOAD_SIZE);
    var signature := o.decodeUrl(q.signature, SIGNATURE_SIZE);
    var m1 := Write(mem, REUSABLE_AT, header.written);
    if !header.ok then m1
    else
      var m2 := Write(m1, JWK_PAYLOAD_AT, payload.written);
      if !payload.ok then m2 else Write(m2, JWK_SIGNATURE_AT, signature.written)
  }

  /** The persistent JWS header and everything from the hash scratch on keep their bytes. */
  lemma WithJwkKeeps(o: Oracle, q: Parts, mem: bytes, lo: nat, hi: nat)
    requires o.Contract() && |mem| >= SCRATCH_USED && lo <= hi <= |mem|
    requires hi <= JWK_PAYLOAD_AT || SHA_SCRATCH_AT <= lo
    ensures WithJwk(o, q, mem)[lo..hi] == mem[lo..hi]
  {
    var header := o.decodeUrl(q.header, JWK_HEADER_SIZE).written;
    var payload := o.decodeUrl(q.payload, JWK_PAYLOAD_SIZE).written;
    var m1 := Write(mem, REUSABLE_AT, header);
    var m2 := Write(m1, JWK_PAYLOAD_AT, payload);
    ReadElsewhere(mem, REUSABLE_AT, header, lo, hi);
    ReadElsewhere(m1, JWK_PAYLOAD_AT, payload, lo, hi);
    ReadElsewhere(m2, JWK_SIGNATURE_AT, o.decodeUrl(q.signature, SIGNATURE_SIZE).written, lo, hi);
  }

  /** Each decoded part is in its region, and the signature region is what the verdict says is seen. */
  lemma WithJwkHolds(o: Oracle, q: Parts, mem: bytes)
    requires o.Contract() && |mem| >= SCRATCH_USED && o.decodeUrl(q.header, JWK_HEADER_SIZE).ok
    ensures var header, payload := o.decodeUrl(q.header, JWK_HEADER_SIZE), o.decodeUrl(q.payload, JWK_PAYLOAD_SIZE);
            var r := WithJwk(o, q, mem);
            && r[REUSABLE_AT..REUSABLE_AT + |header.written|] == header.written
            && r[JWK_PAYLOAD_AT..JWK_PAYLOAD_AT + |payload.written|] == payload.written
            && r[JWK_SIGNATURE_AT..SHA_SCRATCH_AT] == JwkSignatureSeen(o, q, mem[JWK_SIGNATURE_AT..SHA_SCRATCH_AT])
  {
    var header := o.decodeUrl(q.header, JWK_HEADER_SIZE).written;
    var payload := o.decodeUrl(q.payload, JWK_PAYLOAD_SIZE);
    var signature := o.decodeUrl(q.signature, SIGNATURE_SIZE).written;
    var m1 := Write(mem, REUSABLE_AT, header);
    var m2 := Write(m1, JWK_PAYLOAD_AT, payload.written);
    ReadBack(mem, REUSABLE_AT, header);
    ReadElsewhere(m1, JWK_PAYLOAD_AT, payload.written, REUSABLE_AT, REUSABLE_AT + |header|);
    ReadBack(m1, JWK_PAYLOAD_AT, payload.written);
    if payload.ok {
      ReadElsewhere(m2, JWK_SIGNATURE_AT, signature, REUSABLE_AT, REUSABLE_AT + |header|);
      ReadElsewhere(m2, JWK_SIGNATURE_AT, signature, JWK_PAYLOAD_AT, JWK_PAYLOAD_AT + |payload.written|);
      ReadThrough(m2, JWK_SIGNATURE_AT, signature, SHA_SCRATCH_AT);
    }
    var lo := JWK_SIGNATURE_AT + if payload.ok then |signature| else 0;
    ReadElsewhere(mem, REUSABLE_AT, header, lo, SHA_SCRATCH_AT);
    ReadElsewhere(m1, JWK_PAYLOAD_AT, payload.written, lo, SHA_SCRATCH_AT);
    assert mem[lo..SHA_SCRATCH_AT] == mem[JWK_SIGNATURE_AT..SHA_SCRATCH_AT][lo - JWK_SIGNATURE_AT..];
  }

  /** The three decodes of `prvBase64DecodeJWK`. */
  method DecodeJwkParts(o: Oracle, scratch: array<byte>, header: Source, payload: Source, signature: Source,
                   headerAt: nat, payloadAt: nat, signatureAt: nat, ghost q: Parts)
    returns (headerLength: nat, payloadLength: nat)
    requires o.Contract() && scratch.Length >= SCRATCH_USED
    requires headerAt == REUSABLE_AT && payloadAt == JWK_PAYLOAD_AT && signatureAt == JWK_SIGNATURE_AT
    requires InBounds(header, JWS_HEADER_SIZE) && InBounds(payload, JWS_HEADER_SIZE)
    requires InBounds(signature, JWS_HEADER_SIZE)
    requires q == Parts(Load(scratch[..], header), Load(scratch[..], payload), Load(scratch[..], signature))
    modifies scratch
    ensures scratch[..] == WithJwk(o, q, old(scratch[..]))
    ensures var h, p := o.decodeUrl(q.header, JWK_HEADER_SIZE), o.decodeUrl(q.payload, JWK_PAYLOAD_SIZE);
            && headerLength == (if h.ok then |h.written| else 0)
            && payloadLength == (if h.ok && p.ok then |p.written| else 0)
  {
    payloadLength := 0;
    ghost var m0 := scratch[..];
    var ok;
    ok, headerLength := DecodeInto(o.decodeUrl, header, scratch, headerAt, JWK_HEADER_SIZE);
    LoadSurvives(m0, REUSABLE_AT, o.decodeUrl(q.header, JWK_HEADER_SIZE).written, payload);
    LoadSurvives(m0, REUSABLE_AT, o.decodeUrl(q.header, JWK_HEADER_SIZE).written, signature);
    if !ok {
      return;
    }
    ghost var m1 := scratch[..];
    ok, payloadLength := DecodeInto(o.decodeUrl, payload, scratch, payloadAt, JWK_PAYLOAD_SIZE);
    LoadSurvives(m1, JWK_PAYLOAD_AT, o.decodeUrl(q.payload, JWK_PAYLOAD_SIZE).written, signature);
    if !ok {
      return;
    }
    var unread;
    ok, unread := DecodeInto(o.decodeUrl, signature, scratch, signatureAt, SIGNATURE_SIZE);
  }

  /** The regions of the decoded JWK header and payload, and of the bytes seen as the JWK signature. */
  ghost predicate HoldsJwk(o: Oracle, q: Parts, mem: bytes, before: bytes)
    requires o.Contract() && |mem| >= SCRATCH_USED && |before| == SIGNATURE_SIZE
  {
    var h, l := o.decodeUrl(q.header, JWK_HEADER_SIZE), o.decodeUrl(q.payload, JWK_PAYLOAD_SIZE);
    && mem[REUSABLE_AT..REUSABLE_AT + |h.written|] == h.written
    && mem[JWK_PAYLOAD_AT..JWK_PAYLOAD_AT + |l.written|] == l.written
    && mem[JWK_SIGNATURE_AT..SHA_SCRATCH_AT] == JwkSignatureSeen(o, q, before)
  }

  /** `prvBase64DecodeJWK`, whose result the caller drops. */
  method DecodeJwk(o: Oracle, scratch: array<byte>, header: Source, payload: Source, signature: Source,
                   headerAt: nat, payloadAt: nat, signatureAt: nat, ghost q: Parts)
    returns (headerLength: nat, payloadLength: nat)
    requires o.Contract() && scratch.Length >= SCRATCH_USED
    requires headerAt == REUSABLE_AT && payloadAt == JWK_PAYLOAD_AT && signatureAt == JWK_SIGNATURE_AT
    requires InBounds(header, JWS_HEADER_SIZE) && InBounds(payload, JWS_HEADER_SIZE)
    requires InBounds(signature, JWS_HEADER_SIZE)
    requires q == Parts(Load(scratch[..], header), Load(scratch[..], payload), Load(scratch[..], signature))
    modifies scratch
    ensures var h, l := o.decodeUrl(q.header, JWK_HEADER_SIZE), o.decodeUrl(q.payload, JWK_PAYLOAD_SIZE);
            && headerLength == (if h.ok then |h.written| else 0)
            && payloadLength == (if h.ok && l.ok then |l.written| else 0)
            && (h.ok ==> HoldsJwk(o, q, scratch[..], old(scratch[..])[JWK_SIGNATURE_AT..SHA_SCRATCH_AT]))
    ensures scratch[..][..JWK_PAYLOAD_AT] == old(scratch[..])[..JWK_PAYLOAD_AT]
    ensures scratch[..][SCRATCH_USED..] == old(scratch[..])[SCRATCH_USED..]
  {
    ghost var mem := scratch[..];
    headerLength, payloadLength := DecodeJwkParts(o, scratch, header, payload, signature,
                                                  headerAt, payloadAt, signatureAt, q);
    WithJwkKeeps(o, q, mem, 0, JWK_PAYLOAD_AT);
    WithJwkKeeps(o, q, mem, SCRATCH_USED, |mem|);
    if o.decodeUrl(q.header, JWK_HEADER_SIZE).ok {
      WithJwkHolds(o, q, mem);
    }
  }

  /** The slice of a string found in a text denotes its value in memory too. */
  lemma StringInMemory(o: Oracle, mem: bytes, base: nat, text: bytes, lead: nat, name: bytes)
    requires o.Contract() && base + |text| <= |mem| && lead > 0
    requires mem[base..base + |text|] == text && FindString(o.tokenize(text), lead, name).Some?
    ensures var s := o.tokenize(text)[FindString(o.tokenize(text), lead, name).value - 1].slice;
            && s.at + s.len <= |text|
            && StringIn(o, text, lead, name) == Some(Cut(mem, Offset(s, base)))
  {
    var toks := o.tokenize(text);
    var t := toks[FindString(toks, lead, name).value - 1];
    assert t in toks;
    CutInMemory(mem, base, text, t.slice);
  }

  /** A search for a string with a reader of its own, over a text in the scratch buffer. */
  method FindText(o: Oracle, scratch: array<byte>, at: nat, length: nat, lead: nat, name: bytes)
    returns (initialized: bool, r: Option<Span>)
    requires o.Contract() && at + length <= scratch.Length && lead > 0
    ensures var text := scratch[at..at + length];
            && initialized == (text != [])
            && (initialized ==> r.Some? == StringIn(o, text, lead, name).Some?)
            && (initialized && r.Some? ==>
                  && at <= r.value.at && r.value.at + r.value.len <= at + length
                  && Cut(scratch[..], r.value) == StringIn(o, text, lead, name).value)
  {
    var text := scratch[at..at + length];
    var reader := new JsonReader();
    reader.Init(at, text, o.tokenize);
    initialized, r := reader.live, None;
    if initialized {
      r := reader.FindStringValue(lead, name);
      if r.Some? {
        StringInMemory(o, scratch[..], at, text, lead, name);
      }
    }
  }

  /** `prvValidateRootKey`: the first root key whose id is the value of "kid". */
  method ValidateRootKey(o: Oracle, scratch: array<byte>, keys: seq<RootKey>, headerAt: nat, headerLength: nat)
    returns (initialized: bool, root: Option<nat>)
    requires o.Contract() && headerAt + headerLength <= scratch.Length
    ensures var text := Cut(scratch[..], Span(headerAt, headerLength));
            && initialized == (text != [])
            && (initialized ==> root == RootIn(o, keys, text))
  {
    assert scratch[headerAt..headerAt + headerLength] == Cut(scratch[..], Span(headerAt, headerLength));
    var kid;
    initialized, kid := FindText(o, scratch, headerAt, headerLength, 2, KID);
    root := None;
    if initialized && kid.Some? {
      root := FindRoot(keys, scratch[kid.value.at..kid.value.at + kid.value.len]);
    }
  }

  method FindRoot(keys: seq<RootKey>, name: bytes) returns (root: Option<nat>)
    ensures root == RootCalled(keys, name)
  {
    for i := 0 to |keys|
      invariant RootCalled(keys, name) == Shifted(RootCalled(keys[i..], name), i)
    {
      RootCalledFrom(keys, name, i);
      if keys[i].id == name {
        return Some(i);
      }
    }
    return None;
  }

  lemma RootCalledFrom(keys: seq<RootKey>, name: bytes, i: nat)
    requires i < |keys|
    ensures RootCalled(keys[i..], name)
         == if keys[i].id == name then Some(0) else Shifted(RootCalled(keys[i + 1..], name), 1)
  {
    assert keys[i..][0] == keys[i] && keys[i..][1..] == keys[i + 1..];
  }

  function Shifted(r: Option<nat>, offset: nat): Option<nat> {
    match r
    case None => None
    case Some(i) => Some(i + offset)
  }

  // ----- Phase 2: the JWS payload and signature, the signing key and the two manifest hashes -----

  /** The memory `mem` after the JWS payload and signature have been decoded over the JWK header and
      signature. */
  function WithJws(o: Oracle, p: Parts, mem: bytes): (r: bytes)
    requires o.Contract() && |mem| >= SCRATCH_USED
    ensures |r| == |mem|
  {
    var payload, signature := o.decodeUrl(p.payload, JWS_PAYLOAD_SIZE), o.decodeUrl(p.signature, SIGNATURE_SIZE);
    var m1 := Write(mem, REUSABLE_AT, payload.written);
    if payload.ok then Write(m1, JWS_SIGNATURE_AT, signature.written) else m1
  }

  lemma WithJwsKeeps(o: Oracle, p: Parts, mem: bytes, lo: nat, hi: nat)
    requires o.Contract() && |mem| >= SCRATCH_USED && lo <= hi <= |mem|
    requires hi <= REUSABLE_AT || KEY_N_AT <= lo
    ensures WithJws(o, p, mem)[lo..hi] == mem[lo..hi]
  {
    var payload := o.decodeUrl(p.payload, JWS_PAYLOAD_SIZE).written;
    ReadElsewhere(mem, REUSABLE_AT, payload, lo, hi);
    var signature := o.decodeUrl(p.signature, SIGNATURE_SIZE).written;
    ReadElsewhere(Write(mem, REUSABLE_AT, payload), JWS_SIGNATURE_AT, signature, lo, hi);
  }

  lemma WithJwsHolds(o: Oracle, p: Parts, mem: bytes, k: nat)
    requires o.Contract() && |mem| >= SCRATCH_USED && o.decodeUrl(p.payload, JWS_PAYLOAD_SIZE).ok && k <= KEY_N_SIZE
    ensures var payload := o.decodeUrl(p.payload, JWS_PAYLOAD_SIZE);
            var signature := o.decodeUrl(p.signature, SIGNATURE_SIZE);
            var r := WithJws(o, p, mem);
            && r[REUSABLE_AT..REUSABLE_AT + |payload.written|] == payload.written
            && r[JWS_SIGNATURE_AT..SHA_SCRATCH_AT][..k]
               == JwsSignatureSeen(signature.written, mem[JWK_SIGNATURE_AT..SHA_SCRATCH_AT])[..k]
  {
    var payload := o.decodeUrl(p.payload, JWS_PAYLOAD_SIZE).written;
    var signature := o.decodeUrl(p.signature, SIGNATURE_SIZE).written;
    var m1 := Write(mem, REUSABLE_AT, payload);
    var m2 := Write(m1, JWS_SIGNATURE_AT, signature);
    ReadBack(mem, REUSABLE_AT, payload);
    ReadElsewhere(m1, JWS_SIGNATURE_AT, signature, REUSABLE_AT, REUSABLE_AT + |payload|);
    if JWS_SIGNATURE_AT + |signature| <= SHA_SCRATCH_AT {
      ReadThrough(m1, JWS_SIGNATURE_AT, signature, SHA_SCRATCH_AT);
      ReadElsewhere(mem, REUSABLE_AT, payload, JWS_SIGNATURE_AT + |signature|, SHA_SCRATCH_AT);
      var skipped := JWS_SIGNATURE_AT - JWK_SIGNATURE_AT + |signature|;
      assert mem[JWK_SIGNATURE_AT..SHA_SCRATCH_AT][skipped..] == mem[JWS_SIGNATURE_AT + |signature|..SHA_SCRATCH_AT];
    } else {
      ReadBack(m1, JWS_SIGNATURE_AT, signature);
      assert m2[JWS_SIGNATURE_AT..SHA_SCRATCH_AT]
          == m2[JWS_SIGNATURE_AT..JWS_SIGNATURE_AT + |signature|][..SHA_SCRATCH_AT - JWS_SIGNATURE_AT];
    }
  }

  /** The memory `mem` after the signing key has been decoded, up to the first failure. */
  function WithKey(o: Oracle, key: KeyTexts, mem: bytes): (r: bytes)
    requires o.Contract() && |mem| >= SCRATCH_USED
    ensures |r| == |mem|
  {
    var n, e := o.decode(key.n, KEY_N_SIZE), o.decode(key.e, KEY_E_SIZE);
    var m1 := Write(mem, KEY_N_AT, n.written);
    if n.ok then Write(m1, KEY_E_AT, e.written) else m1
  }

  lemma WithKeyKeeps(o: Oracle, key: KeyTexts, mem: bytes, lo: nat, hi: nat)
    requires o.Contract() && |mem| >= SCRATCH_USED && lo <= hi <= |mem|
    requires hi <= KEY_N_AT || MANIFEST_SHA_AT <= lo
    ensures WithKey(o, key, mem)[lo..hi] == mem[lo..hi]
  {
    var n := o.decode(key.n, KEY_N_SIZE).written;
    ReadElsewhere(mem, KEY_N_AT, n, lo, hi);
    ReadElsewhere(Write(mem, KEY_N_AT, n), KEY_E_AT, o.decode(key.e, KEY_E_SIZE).written, lo, hi);
  }

  lemma WithKeyHolds(o: Oracle, key: KeyTexts, mem: bytes)
    requires o.Contract() && |mem| >= SCRATCH_USED && o.decode(key.n, KEY_N_SIZE).ok
    ensures var n, e := o.decode(key.n, KEY_N_SIZE).written, o.decode(key.e, KEY_E_SIZE).written;
            var r := WithKey(o, key, mem);
            r[KEY_N_AT..KEY_N_AT + |n|] == n && r[KEY_E_AT..KEY_E_AT + |e|] == e
  {
    var n, e := o.decode(key.n, KEY_N_SIZE).written, o.decode(key.e, KEY_E_SIZE).written;
    var m1 := Write(mem, KEY_N_AT, n);
    ReadBack(mem, KEY_N_AT, n);
    ReadElsewhere(m1, KEY_E_AT, e, KEY_N_AT, KEY_N_AT + |n|);
    ReadBack(m1, KEY_E_AT, e);
  }

  /** `prvBase64DecodeJWSHeaderAndPayload`, which decodes the payload and the signature. */
  method DecodeJws(o: Oracle, scratch: array<byte>, p: Parts, payloadAt: nat, signatureAt: nat)
    returns (ok: bool, payloadLength: nat)
    requires o.Contract() && scratch.Length >= SCRATCH_USED
    requires payloadAt == REUSABLE_AT && signatureAt == JWS_SIGNATURE_AT
    modifies scratch
    ensures scratch[..] == WithJws(o, p, old(scratch[..]))
    ensures var payload := o.decodeUrl(p.payload, JWS_PAYLOAD_SIZE);
            && ok == (payload.ok && o.decodeUrl(p.signature, SIGNATURE_SIZE).ok)
            && (ok ==> payloadLength == |payload.written|)
  {
    ok, payloadLength := DecodeInto(o.decodeUrl, Caller(p.payload), scratch, payloadAt, JWS_PAYLOAD_SIZE);
    if ok {
      var unread;
      ok, unread := DecodeInto(o.decodeUrl, Caller(p.signature), scratch, signatureAt, SIGNATURE_SIZE);
    }
  }

  /** `prvBase64DecodeSigningKey`, from slices of the persistent part of the scratch buffer. */
  method DecodeSigningKey(o: Oracle, scratch: array<byte>, nText: Span, eText: Span, nAt: nat, eAt: nat,
                          ghost key: KeyTexts)
    returns (ok: bool, nLength: nat, eLength: nat)
    requires o.Contract() && scratch.Length >= SCRATCH_USED && nAt == KEY_N_AT && eAt == KEY_E_AT
    requires nText.at + nText.len <= REUSABLE_AT && eText.at + eText.len <= REUSABLE_AT
    requires Cut(scratch[..], nText) == key.n && Cut(scratch[..], eText) == key.e
    modifies scratch
    ensures scratch[..] == WithKey(o, key, old(scratch[..]))
    ensures var n, e := o.decode(key.n, KEY_N_SIZE), o.decode(key.e, KEY_E_SIZE);
            ok == (n.ok && e.ok) && (ok ==> nLength == |n.written| && eLength == |e.written|)
  {
    eLength := 0;
    ghost var mem := scratch[..];
    ok, nLength := DecodeInto(o.decode, Scratch(nText), scratch, nAt, KEY_N_SIZE);
    if ok {
      CutKept(mem, KEY_N_AT, o.decode(key.n, KEY_N_SIZE).written, eText);
      ok, eLength := DecodeInto(o.decode, Scratch(eText), scratch, eAt, KEY_E_SIZE);
    }
  }

  /** The calculated and the parsed hash, one after the other in the last two regions. */
  lemma HashesStand(mem: bytes, digest: bytes, parsed: bytes)
    requires |mem| >= SCRATCH_USED && |digest| == SHA256_SIZE && |parsed| <= SHA256_SIZE
    ensures var m1 := Write(mem, MANIFEST_SHA_AT, digest);
            var m2 := Write(m1, PARSED_SHA_AT, parsed);
            && m2[MANIFEST_SHA_AT..MANIFEST_SHA_AT + SHA256_SIZE] == digest
            && m2[PARSED_SHA_AT..PARSED_SHA_AT + |parsed|] == parsed
            && m1[SCRATCH_USED..] == mem[SCRATCH_USED..] == m2[SCRATCH_USED..]
  {
    var m1 := Write(mem, MANIFEST_SHA_AT, digest);
    ReadBack(mem, MANIFEST_SHA_AT, digest);
    ReadElsewhere(m1, PARSED_SHA_AT, parsed, MANIFEST_SHA_AT, MANIFEST_SHA_AT + SHA256_SIZE);
    ReadBack(m1, PARSED_SHA_AT, parsed);
    ReadElsewhere(mem, MANIFEST_SHA_AT, digest, SCRATCH_USED, |mem|);
    ReadElsewhere(m1, PARSED_SHA_AT, parsed, SCRATCH_USED, |mem|);
  }

  /** `prvVerifySHAMatch`. */
  method VerifyShaMatch(o: Oracle, manifest: bytes, scratch: array<byte>, payloadAt: nat, payloadLength: nat,
                        manifestShaAt: nat, parsedShaAt: nat)
    returns (r: Outcome)
    requires o.Contract() && scratch.Length >= SCRATCH_USED && payloadAt == REUSABLE_AT
    requires payloadLength <= JWS_PAYLOAD_SIZE
    requires manifestShaAt == MANIFEST_SHA_AT && parsedShaAt == PARSED_SHA_AT
    modifies scratch
    ensures r == ShaVerdict(o, manifest, old(scratch[payloadAt..payloadAt + payloadLength]))
    ensures scratch[..][SCRATCH_USED..] == old(scratch[..])[SCRATCH_USED..]
  {
    ghost var m0 := scratch[..];
    ghost var text := scratch[payloadAt..payloadAt + payloadLength];
    ghost var digest := o.sha256(manifest);
    Store(scratch, manifestShaAt, o.sha256(manifest));
    ghost var m1 := scratch[..];
    HashesStand(m0, digest, []);
    ReadElsewhere(m0, MANIFEST_SHA_AT, digest, payloadAt, payloadAt + payloadLength);
    assert scratch[payloadAt..payloadAt + payloadLength] == text;
    var initialized, sha := FindText(o, scratch, payloadAt, payloadLength, 2, SHA256);
    if !initialized {
      return Indeterminate;
    }
    if sha.None? {
      return Rejected;
    }
    var ok, len := DecodeInto(o.decode, Scratch(sha.value), scratch, parsedShaAt, SHA256_SIZE);
    ghost var d := o.decode(StringIn(o, text, 2, SHA256).value, SHA256_SIZE);
    HashesStand(m0, digest, d.written);
    if !ok || len != SHA256_SIZE {
      return Rejected;
    }
    ghost var m2 := scratch[..];
    assert scratch[manifestShaAt..manifestShaAt + SHA256_SIZE] == m2[manifestShaAt..manifestShaAt + SHA256_SIZE];
    assert scratch[parsedShaAt..parsedShaAt + SHA256_SIZE] == m2[parsedShaAt..parsedShaAt + SHA256_SIZE];
    return if scratch[manifestShaAt..manifestShaAt + SHA256_SIZE] == scratch[parsedShaAt..parsedShaAt + SHA256_SIZE]
           then Authentic else Rejected;
  }

  /** The persistent part and the memory beyond the scratch regions survive the second phase's decodes. */
  lemma SecondPhaseKeeps(o: Oracle, p: Parts, key: KeyTexts, mem: bytes)
    requires o.Contract() && |mem| >= SCRATCH_USED
    ensures var m1 := WithJws(o, p, mem);
            var m2 := WithKey(o, key, m1);
            && mem[..REUSABLE_AT] == m1[..REUSABLE_AT] == m2[..REUSABLE_AT]
            && mem[SCRATCH_USED..] == m1[SCRATCH_USED..] == m2[SCRATCH_USED..]
  {
    var m1 := WithJws(o, p, mem);
    WithJwsKeeps(o, p, mem, 0, REUSABLE_AT);
    WithJwsKeeps(o, p, mem, SCRATCH_USED, |mem|);
    WithKeyKeeps(o, key, m1, 0, REUSABLE_AT);
    WithKeyKeeps(o, key, m1, SCRATCH_USED, |mem|);
  }

  /** What the second RSA check and the hash comparison then find in memory. */
  lemma SecondPhaseHolds(o: Oracle, p: Parts, key: KeyTexts, mem: bytes, k: nat)
    requires o.Contract() && |mem| >= SCRATCH_USED && k <= KEY_N_SIZE
    requires o.decodeUrl(p.payload, JWS_PAYLOAD_SIZE).ok && o.decode(key.n, KEY_N_SIZE).ok
    ensures var r := WithKey(o, key, WithJws(o, p, mem));
            var payload := o.decodeUrl(p.payload, JWS_PAYLOAD_SIZE).written;
            var signature := o.decodeUrl(p.signature, SIGNATURE_SIZE).written;
            var n, e := o.decode(key.n, KEY_N_SIZE).written, o.decode(key.e, KEY_E_SIZE).written;
            && r[REUSABLE_AT..REUSABLE_AT + |payload|] == payload
            && r[KEY_N_AT..KEY_N_AT + |n|] == n && r[KEY_E_AT..KEY_E_AT + |e|] == e
            && r[JWS_SIGNATURE_AT..SHA_SCRATCH_AT][..k]
               == JwsSignatureSeen(signature, mem[JWK_SIGNATURE_AT..SHA_SCRATCH_AT])[..k]
  {
    var m1 := WithJws(o, p, mem);
    WithJwsHolds(o, p, mem, k);
    WithKeyHolds(o, key, m1);
    WithKeyKeeps(o, key, m1, JWS_SIGNATURE_AT, SHA_SCRATCH_AT);
    WithKeyKeeps(o, key, m1, REUSABLE_AT, REUSABLE_AT + |o.decodeUrl(p.payload, JWS_PAYLOAD_SIZE).written|);
  }

  /** A slice of the persistent part has the same bytes in two memories that agree there. */
  lemma SameCut(a: bytes, b: bytes, s: Span)
    requires |a| == |b| >= SCRATCH_USED && a[..REUSABLE_AT] == b[..REUSABLE_AT] && s.at + s.len <= REUSABLE_AT
    ensures Cut(a, s) == Cut(b, s)
  {
    SameCutBelow(a, b, REUSABLE_AT, s);
  }

  /** The JWS header, and a slice of it, in two memories that agree on the persistent header region. */
  lemma HeaderKept(a: bytes, b: bytes, length: nat, s: Span)
    requires |a| == |b| >= SCRATCH_USED && a[..JWK_PAYLOAD_AT] == b[..JWK_PAYLOAD_AT]
    requires s.at + s.len <= length <= JWS_HEADER_SIZE
    ensures a[..length] == b[..length] && Cut(a, s) == Cut(b, s)
  {
    PrefixKept(a, b, JWK_PAYLOAD_AT, length);
    SameCutBelow(a, b, JWK_PAYLOAD_AT, s);
  }

  lemma PrefixKept(a: bytes, b: bytes, bound: nat, k: nat)
    requires |a| == |b| >= bound >= k && a[..bound] == b[..bound]
    ensures a[..k] == b[..k]
  {
    assert a[..k] == a[..bound][..k];
    assert b[..k] == b[..bound][..k];
  }

  lemma SameCutBelow(a: bytes, b: bytes, bound: nat, s: Span)
    requires |a| == |b| >= bound && a[..bound] == b[..bound] && s.at + s.len <= bound
    ensures Cut(a, s) == Cut(b, s)
  {
    assert Cut(a, s) == a[..bound][s.at..s.at + s.len];
    assert Cut(b, s) == b[..bound][s.at..s.at + s.len];
  }

  /** The decodes of the second phase, over the regions the first phase has finished with, and the
      check of the algorithm. */
  method DecodeSecondPhase(o: Oracle, p: Parts, scratch: array<byte>, key: KeyParts,
                           payloadAt: nat, signatureAt: nat, nAt: nat, eAt: nat)
    returns (ok: bool, payloadLength: nat, nLength: nat, eLength: nat)
    requires o.Contract() && scratch.Length >= SCRATCH_USED
    requires payloadAt == REUSABLE_AT && signatureAt == JWS_SIGNATURE_AT && nAt == KEY_N_AT && eAt == KEY_E_AT
    requires PartsWithin(key, REUSABLE_AT)
    modifies scratch
    ensures var mem := old(scratch[..]);
            var texts := TextsAt(mem, key);
            var payload := o.decodeUrl(p.payload, JWS_PAYLOAD_SIZE);
            var n, e := o.decode(texts.n, KEY_N_SIZE), o.decode(texts.e, KEY_E_SIZE);
            && scratch[..][SCRATCH_USED..] == mem[SCRATCH_USED..]
            && ok == (payload.ok && o.decodeUrl(p.signature, SIGNATURE_SIZE).ok && n.ok && e.ok && texts.alg == RS256)
            && (ok ==>
                  && payloadLength == |payload.written| && nLength == |n.written| && eLength == |e.written|
                  && scratch[..] == WithKey(o, texts, WithJws(o, p, mem)))
  {
    nLength, eLength := 0, 0;
    ghost var m0 := scratch[..];
    ghost var texts := TextsAt(m0, key);
    SecondPhaseKeeps(o, p, texts, m0);
    ok, payloadLength := DecodeJws(o, scratch, p, payloadAt, signatureAt);
    if !ok {
      return;
    }
    SameCut(m0, scratch[..], key.n);
    SameCut(m0, scratch[..], key.e);
    ok, nLength, eLength := DecodeSigningKey(o, scratch, key.n, key.e, nAt, eAt, texts);
    if !ok {
      return;
    }
    SameCut(m0, scratch[..], key.alg);
    ok := scratch[key.alg.at..key.alg.at + key.alg.len] == RS256;
  }

  lemma VerifiedByPrefix(o: Oracle, n: bytes, e: bytes, input: bytes, a: bytes, b: bytes)
    requires o.modulusLen(n) <= |a| && o.modulusLen(n) <= |b| && a[..o.modulusLen(n)] == b[..o.modulusLen(n)]
    ensures Verified(o, n, e, input, a) == Verified(o, n, e, input, b)
  {
  }

  /** The second RSA check, with the hash scratch of the first one, and the comparison of the hashes. */
  method VerifyManifest(o: Oracle, manifest: bytes, input: bytes, scratch: array<byte>,
                        payload: Span, signatureAt: nat, n: Span, e: Span, shaScratchAt: nat, shaAt: nat)
    returns (r: Outcome)
    requires o.Contract() && scratch.Length >= SCRATCH_USED
    requires payload.at == REUSABLE_AT && payload.len <= JWS_PAYLOAD_SIZE && signatureAt == JWS_SIGNATURE_AT
    requires n.at == KEY_N_AT && n.len <= KEY_N_SIZE && e.at == KEY_E_AT && e.len <= KEY_E_SIZE
    requires shaScratchAt == SHA_SCRATCH_AT && shaAt == MANIFEST_SHA_AT
    modifies scratch
    ensures var mem := old(scratch[..]);
            && r == (if Verified(o, Cut(mem, n), Cut(mem, e), input, mem[signatureAt..shaScratchAt])
                     then ShaVerdict(o, manifest, Cut(mem, payload)) else Rejected)
            && scratch[..][SCRATCH_USED..] == mem[SCRATCH_USED..]
  {
    ghost var m := scratch[..];
    var ok := RS256Verify(o, scratch, Caller(input), signatureAt, Scratch(n), Scratch(e),
                          shaScratchAt, SHA_SCRATCH_SIZE);
    SameSlice(m, scratch[..], SHA_SCRATCH_AT, SHA256_SIZE, payload.at, payload.at + payload.len);
    SameSlice(m, scratch[..], SHA_SCRATCH_AT, SHA256_SIZE, SCRATCH_USED, |m|);
    if !ok {
      return Rejected;
    }
    assert scratch[payload.at..payload.at + payload.len] == scratch[..][payload.at..payload.at + payload.len];
    r := VerifyShaMatch(o, manifest, scratch, payload.at, payload.len, shaAt, shaAt + SHA256_SIZE);
  }

  /** The verdict, as what is left to check once the decodes have succeeded. */
  lemma SecondPhaseVerdict(o: Oracle, manifest: bytes, p: Parts, key: KeyTexts, mem: bytes)
    requires o.Contract() && |mem| >= SCRATCH_USED && key.alg == RS256
    requires o.decodeUrl(p.payload, JWS_PAYLOAD_SIZE).ok && o.decodeUrl(p.signature, SIGNATURE_SIZE).ok
    requires o.decode(key.n, KEY_N_SIZE).ok && o.decode(key.e, KEY_E_SIZE).ok
    ensures var m := WithKey(o, key, WithJws(o, p, mem));
            var payload := Span(REUSABLE_AT, |o.decodeUrl(p.payload, JWS_PAYLOAD_SIZE).written|);
            var n := Span(KEY_N_AT, |o.decode(key.n, KEY_N_SIZE).written|);
            var e := Span(KEY_E_AT, |o.decode(key.e, KEY_E_SIZE).written|);
            JwsVerdict(o, manifest, p, key, mem[JWK_SIGNATURE_AT..SHA_SCRATCH_AT])
            == if Verified(o, Cut(m, n), Cut(m, e), SigningInput(p), m[JWS_SIGNATURE_AT..SHA_SCRATCH_AT])
               then ShaVerdict(o, manifest, Cut(m, payload)) else Rejected
  {
    var m := WithKey(o, key, WithJws(o, p, mem));
    var n, e := o.decode(key.n, KEY_N_SIZE).written, o.decode(key.e, KEY_E_SIZE).written;
    SecondPhaseHolds(o, p, key, mem, o.modulusLen(n));
    var seen := JwsSignatureSeen(o.decodeUrl(p.signature, SIGNATURE_SIZE).written,
                                 mem[JWK_SIGNATURE_AT..SHA_SCRATCH_AT]);
    VerifiedByPrefix(o, n, e, SigningInput(p), m[JWS_SIGNATURE_AT..SHA_SCRATCH_AT], seen);
  }

  /** The second phase: the reusable part of the scratch buffer is taken over from its root again. */
  method AuthenticateJws(o: Oracle, manifest: bytes, p: Parts, scratch: array<byte>, reusableRoot: nat,
                         key: KeyParts, shaScratchAt: nat)
    returns (r: Outcome)
    requires o.Contract() && scratch.Length >= SCRATCH_USED
    requires reusableRoot == REUSABLE_AT && shaScratchAt == SHA_SCRATCH_AT
    requires PartsWithin(key, REUSABLE_AT)
    modifies scratch
    ensures var mem := old(scratch[..]);
            r == JwsVerdict(o, manifest, p, TextsAt(mem, key),
                            mem[JWK_SIGNATURE_AT..SHA_SCRATCH_AT])
    ensures scratch[..][SCRATCH_USED..] == old(scratch[..])[SCRATCH_USED..]
  {
    ghost var m0 := scratch[..];
    ghost var texts := TextsAt(m0, key);
    var payloadAt := reusableRoot;
    var signatureAt := payloadAt + JWS_PAYLOAD_SIZE;
    var nAt := signatureAt + SIGNATURE_SIZE;
    var eAt := nAt + KEY_N_SIZE;
    var reusableHead := eAt + KEY_E_SIZE;
    var ok, payloadLength, nLength, eLength :=
      DecodeSecondPhase(o, p, scratch, key, payloadAt, signatureAt, nAt, eAt);
    if !ok {
      return Rejected;
    }
    SecondPhaseVerdict(o, manifest, p, texts, m0);
    r := VerifyManifest(o, manifest, SigningInput(p), scratch, Span(payloadAt, payloadLength), signatureAt,
                        Span(nAt, nLength), Span(eAt, eLength), shaScratchAt, reusableHead);
  }

  // ----- Phase 1: the signed signing key -----

  /** `prvFindKeyParts` on a reader over `text`, giving slices of the scratch buffer. */
  method FindSigningKey(o: Oracle, scratch: array<byte>, reader: JsonReader, ghost text: bytes)
    returns (r: Option<KeyParts>)
    requires o.Contract() && reader.Valid() && reader.toks == o.tokenize(text)
    requires reader.base + |text| <= scratch.Length && scratch[reader.base..reader.base + |text|] == text
    modifies reader`next
    ensures r.Some? == KeyTextsIn(o, text, old(reader.next)).Some?
    ensures r.Some? ==>
              var p, hi := r.value, reader.base + |text|;
              && PartsWithin(p, hi)
              && TextsAt(scratch[..], p) == KeyTextsIn(o, text, old(reader.next)).value
  {
    ghost var start := reader.next;
    var found := reader.FindKeyParts();
    if found.None? {
      return None;
    }
    var p := found.value;
    KeyTextsInMemory(o, scratch[..], reader.base, text, start);
    return Some(KeyParts(Offset(p.n, reader.base), Offset(p.e, reader.base), Offset(p.alg, reader.base)));
  }

  /** The slices of the key parts denote the same texts in memory as in the text they were found in. */
  lemma KeyTextsInMemory(o: Oracle, mem: bytes, base: nat, text: bytes, next: nat)
    requires o.Contract() && base + |text| <= |mem| && mem[base..base + |text|] == text
    requires KeyPartsFrom(o.tokenize(text), next).Some?
    ensures var p := KeyPartsFrom(o.tokenize(text), next).value;
            && PartsWithin(p, |text|)
            && KeyTextsIn(o, text, next)
               == Some(KeyTexts(Cut(mem, Offset(p.n, base)), Cut(mem, Offset(p.e, base)),
                                Cut(mem, Offset(p.alg, base))))
  {
    var p := KeyPartsFrom(o.tokenize(text), next).value;
    PartsAreSlices(o.tokenize(text), next + 2, NO_PARTS, |text|);
    assert KeyTextsIn(o, text, next) == Some(KeyTexts(Cut(text, p.n), Cut(text, p.e), Cut(text, p.alg)));
    CutInMemory(mem, base, text, p.n);
    CutInMemory(mem, base, text, p.e);
    CutInMemory(mem, base, text, p.alg);
  }

  /** The search for the key parts in the decoded JWK payload, with the reader that searched the JWS
      header before: the reader stays there when the payload is empty. */
  method FindDecodedKey(o: Oracle, scratch: array<byte>, reader: JsonReader, payloadAt: nat, payloadLength: nat,
                        ghost header: bytes, ghost payload: Output)
    returns (r: Option<KeyParts>)
    requires o.Contract() && scratch.Length >= SCRATCH_USED && |header| <= JWS_HEADER_SIZE
    requires payloadAt == JWK_PAYLOAD_AT
    requires payloadLength == (if payload.ok then |payload.written| else 0) <= JWK_PAYLOAD_SIZE
    requires scratch[..|header|] == header
    requires payload.ok ==> Cut(scratch[..], Span(payloadAt, payloadLength)) == payload.written
    requires FindString(o.tokenize(header), 1, SJWK).Some?
    requires reader.base == 0 && reader.toks == o.tokenize(header)
    requires reader.next == FindString(reader.toks, 1, SJWK).value
    modifies reader
    ensures r.Some? == KeyTextsSeen(o, header, payload).Some?
    ensures r.Some? ==>
              var p := r.value;
              && PartsWithin(p, REUSABLE_AT)
              && TextsAt(scratch[..], p) == KeyTextsSeen(o, header, payload).value
  {
    assert scratch[payloadAt..payloadAt + payloadLength] == Cut(scratch[..], Span(payloadAt, payloadLength));
    reader.Init(payloadAt, scratch[payloadAt..payloadAt + payloadLength], o.tokenize);
    if payloadLength > 0 {
      r := FindSigningKey(o, scratch, reader, payload.written);
    } else {
      r := FindSigningKey(o, scratch, reader, header);
    }
  }

  /** The two searches in the decoded JWK: the root key its header names and the parts of the key in
      its payload. */
  method FindRootAndKey(o: Oracle, keys: seq<RootKey>, scratch: array<byte>, reader: JsonReader,
                        header: Span, payload: Span, ghost text: bytes, ghost h: Output, ghost l: Output)
    returns (initialized: bool, root: Option<nat>, key: Option<KeyParts>)
    requires o.Contract() && scratch.Length >= SCRATCH_USED
    requires |text| <= JWS_HEADER_SIZE && scratch[..|text|] == text
    requires FindString(o.tokenize(text), 1, SJWK).Some?
    requires reader.base == 0 && reader.toks == o.tokenize(text)
    requires reader.next == FindString(reader.toks, 1, SJWK).value
    requires header.at == REUSABLE_AT && header.len == (if h.ok then |h.written| else 0) <= JWK_HEADER_SIZE
    requires payload.at == JWK_PAYLOAD_AT
    requires payload.len == (if h.ok && l.ok then |l.written| else 0) <= JWK_PAYLOAD_SIZE
    requires h.ok ==> Cut(scratch[..], header) == h.written && (l.ok ==> Cut(scratch[..], payload) == l.written)
    modifies reader
    ensures initialized == (h.ok && h.written != [])
    ensures initialized ==> root == RootIn(o, keys, h.written)
    ensures initialized && root.Some? ==> key.Some? == KeyTextsSeen(o, text, l).Some?
    ensures initialized && root.Some? && key.Some? ==>
              var p := key.value;
              && PartsWithin(p, REUSABLE_AT)
              && TextsAt(scratch[..], p) == KeyTextsSeen(o, text, l).value
  {
    key := None;
    initialized, root := ValidateRootKey(o, scratch, keys, header.at, header.len);
    if initialized && root.Some? {
      key := FindDecodedKey(o, scratch, reader, payload.at, payload.len, text, l);
    }
  }

  /** From the decoded JWK on: root key, key parts, first RSA check, and then the second phase. */
  method AuthenticateDecodedJwk(o: Oracle, manifest: bytes, keys: seq<RootKey>, p: Parts, scratch: array<byte>,
                                reader: JsonReader, input: Span, header: Span, payload: Span, signatureAt: nat,
                                shaScratchAt: nat, ghost text: bytes, ghost q: Parts, ghost before: bytes)
    returns (r: Outcome)
    requires o.Contract() && RootsFit(o, keys) && scratch.Length >= SCRATCH_USED
    requires |before| == SIGNATURE_SIZE
    requires o.decodeUrl(q.header, JWK_HEADER_SIZE).ok ==> HoldsJwk(o, q, scratch[..], before)
    requires |text| <= JWS_HEADER_SIZE && scratch[..|text|] == text && JwkIn(o, text) == Some(q)
    requires reader.base == 0 && reader.toks == o.tokenize(text)
    requires FindString(reader.toks, 1, SJWK) == Some(reader.next)
    requires input.at + input.len <= JWS_HEADER_SIZE && Cut(scratch[..], input) == SigningInput(q)
    requires header.at == REUSABLE_AT && payload.at == JWK_PAYLOAD_AT
    requires signatureAt == JWK_SIGNATURE_AT && shaScratchAt == SHA_SCRATCH_AT
    requires var h, l := o.decodeUrl(q.header, JWK_HEADER_SIZE), o.decodeUrl(q.payload, JWK_PAYLOAD_SIZE);
             && header.len == (if h.ok then |h.written| else 0)
             && payload.len == (if h.ok && l.ok then |l.written| else 0)
    modifies scratch, reader
    ensures r == JwkVerdict(o, manifest, keys, before, p, text, q)
    ensures scratch[..][SCRATCH_USED..] == old(scratch[..])[SCRATCH_USED..]
  {
    var initialized, root, key := FindRootAndKey(o, keys, scratch, reader, header, payload, text,
                                                 o.decodeUrl(q.header, JWK_HEADER_SIZE),
                                                 o.decodeUrl(q.payload, JWK_PAYLOAD_SIZE));
    if !initialized {
      return Indeterminate;
    }
    if root.None? || key.None? {
      return Rejected;
    }
    r := VerifySigningKey(o, manifest, keys[root.value], p, scratch, input,
                          signatureAt, shaScratchAt, header.at, key.value);
  }

  /** The first RSA check, and the second phase if it passes. */
  method VerifySigningKey(o: Oracle, manifest: bytes, root: RootKey, p: Parts, scratch: array<byte>, input: Span,
                          signatureAt: nat, shaScratchAt: nat, reusableRoot: nat, key: KeyParts)
    returns (r: Outcome)
    requires o.Contract() && scratch.Length >= SCRATCH_USED && o.modulusLen(root.n) <= SIGNATURE_SIZE
    requires input.at + input.len <= JWS_HEADER_SIZE
    requires signatureAt == JWK_SIGNATURE_AT && shaScratchAt == SHA_SCRATCH_AT && reusableRoot == REUSABLE_AT
    requires PartsWithin(key, REUSABLE_AT)
    modifies scratch
    ensures var mem := old(scratch[..]);
            var seen := mem[signatureAt..shaScratchAt];
            && r == KeyVerdict(o, manifest, root, p, TextsAt(mem, key), Cut(mem, input), seen)
            && scratch[..][SCRATCH_USED..] == mem[SCRATCH_USED..]
  {
    ghost var m := scratch[..];
    var ok := RS256Verify(o, scratch, Scratch(input), signatureAt, Caller(root.n), Caller(root.e),
                          shaScratchAt, SHA_SCRATCH_SIZE);
    SameSlice(m, scratch[..], SHA_SCRATCH_AT, SHA256_SIZE, SCRATCH_USED, |m|);
    if !ok {
      return Rejected;
    }
    SameSlice(m, scratch[..], SHA_SCRATCH_AT, SHA256_SIZE, 0, REUSABLE_AT);
    SameSlice(m, scratch[..], SHA_SCRATCH_AT, SHA256_SIZE, signatureAt, shaScratchAt);
    SameCut(m, scratch[..], key.n);
    SameCut(m, scratch[..], key.e);
    SameCut(m, scratch[..], key.alg);
    r := AuthenticateJws(o, manifest, p, scratch, reusableRoot, key, shaScratchAt);
  }

  /** Decodes the parts of the JWK, which are slices of the decoded JWS header, without touching it. */
  method DecodeSplitJwk(o: Oracle, scratch: array<byte>, h: Span, pl: Span, s: Span, headerAt: nat, payloadAt: nat,
                        signatureAt: nat, ghost q: Parts, ghost header: bytes, ghost input: Span)
    returns (headerLength: nat, payloadLength: nat)
    requires o.Contract() && scratch.Length >= SCRATCH_USED
    requires headerAt == REUSABLE_AT && payloadAt == JWK_PAYLOAD_AT && signatureAt == JWK_SIGNATURE_AT
    requires |header| <= JWS_HEADER_SIZE && scratch[..|header|] == header
    requires h.at + h.len <= |header| && pl.at + pl.len <= |header| && s.at + s.len <= |header|
    requires input.at + input.len <= |header|
    requires q == Parts(Cut(scratch[..], h), Cut(scratch[..], pl), Cut(scratch[..], s))
    modifies scratch
    ensures var hd, l := o.decodeUrl(q.header, JWK_HEADER_SIZE), o.decodeUrl(q.payload, JWK_PAYLOAD_SIZE);
            && headerLength == (if hd.ok then |hd.written| else 0)
            && payloadLength == (if hd.ok && l.ok then |l.written| else 0)
            && (hd.ok ==> HoldsJwk(o, q, scratch[..], old(scratch[..])[JWK_SIGNATURE_AT..SHA_SCRATCH_AT]))
    ensures scratch[..|header|] == header && Cut(scratch[..], input) == Cut(old(scratch[..]), input)
    ensures scratch[..][SCRATCH_USED..] == old(scratch[..])[SCRATCH_USED..]
  {
    ghost var mem := scratch[..];
    headerLength, payloadLength :=
      DecodeJwk(o, scratch, Scratch(h), Scratch(pl), Scratch(s), headerAt, payloadAt, signatureAt, q);
    HeaderKept(mem, scratch[..], |header|, input);
  }

  /** From the value of "sjwk" on. `reader` stands on that value in the decoded JWS header. */
  method AuthenticateJwk(o: Oracle, manifest: bytes, keys: seq<RootKey>, p: Parts, scratch: array<byte>,
                         reader: JsonReader, sjwk: Span, persistentHead: nat, reusableRoot: nat, ghost header: bytes)
    returns (r: Outcome)
    requires o.Contract() && RootsFit(o, keys) && scratch.Length >= SCRATCH_USED
    requires |header| <= JWS_HEADER_SIZE && scratch[..|header|] == header
    requires persistentHead == JWK_PAYLOAD_AT && reusableRoot == REUSABLE_AT
    requires reader.base == 0 && reader.toks == o.tokenize(header)
    requires FindString(reader.toks, 1, SJWK) == Some(reader.next) && sjwk == reader.toks[reader.next - 1].slice
    modifies scratch, reader
    ensures r == HeaderVerdict(o, manifest, keys, old(scratch[..])[JWK_SIGNATURE_AT..SHA_SCRATCH_AT], p, header)
    ensures scratch[..][SCRATCH_USED..] == old(scratch[..])[SCRATCH_USED..]
  {
    ghost var m0 := scratch[..];
    var ok, h, pl, s, input := SplitJwk(o, scratch, sjwk, header);
    if !ok {
      return Rejected;
    }
    ghost var q := JwkIn(o, header).value;
    ghost var before := m0[JWK_SIGNATURE_AT..SHA_SCRATCH_AT];
    var reusableHead := reusableRoot;
    var headerAt := reusableHead;
    reusableHead := reusableHead + JWK_HEADER_SIZE;
    var payloadAt := persistentHead;
    var signatureAt := reusableHead;
    reusableHead := reusableHead + SIGNATURE_SIZE;
    var headerLength, payloadLength :=
      DecodeSplitJwk(o, scratch, h, pl, s, headerAt, payloadAt, signatureAt, q, header, input);
    r := AuthenticateDecodedJwk(o, manifest, keys, p, scratch, reader, input, Span(headerAt, headerLength),
                                Span(payloadAt, payloadLength), signatureAt, reusableHead, header, q, before);
    HeaderVerdictOf(o, manifest, keys, before, p, header, q);
  }

  /** `prvSplitJWS` on the value of "sjwk", whose parts are slices of the decoded JWS header. */
  method SplitJwk(o: Oracle, scratch: array<byte>, sjwk: Span, ghost header: bytes)
    returns (ok: bool, h: Span, pl: Span, s: Span, input: Span)
    requires o.Contract() && scratch.Length >= |header| && scratch[..|header|] == header
    requires var toks := o.tokenize(header);
             FindString(toks, 1, SJWK).Some? && sjwk == toks[FindString(toks, 1, SJWK).value - 1].slice
    ensures ok == JwkIn(o, header).Some?
    ensures ok ==>
              && h.at + h.len <= |header| && pl.at + pl.len <= |header|
              && s.at + s.len <= |header| && input.at + input.len <= |header|
              && JwkIn(o, header).value == Parts(Cut(scratch[..], h), Cut(scratch[..], pl), Cut(scratch[..], s))
              && Cut(scratch[..], input) == SigningInput(JwkIn(o, header).value)
  {
    StringInMemory(o, scratch[..], 0, header, 1, SJWK);
    assert JwkIn(o, header) == Split(Cut(scratch[..], sjwk));
    ok, h, pl, s, input := SplitSlice(scratch, sjwk);
  }

  /** `prvSplitJWS` on a slice of the scratch buffer. */
  method SplitSlice(scratch: array<byte>, slice: Span)
    returns (ok: bool, h: Span, pl: Span, s: Span, input: Span)
    requires slice.at + slice.len <= scratch.Length
    ensures var split, bound := Split(Cut(scratch[..], slice)), slice.at + slice.len;
            && ok == split.Some?
            && (ok ==>
                  && h.at + h.len <= bound && pl.at + pl.len <= bound
                  && s.at + s.len <= bound && input.at + input.len <= bound
                  && split.value == Parts(Cut(scratch[..], h), Cut(scratch[..], pl), Cut(scratch[..], s))
                  && Cut(scratch[..], input) == SigningInput(split.value))
  {
    var text := scratch[slice.at..slice.at + slice.len];
    assert text == Cut(scratch[..], slice);
    ok, h, pl, s := SplitJws(text);
    input := Span(0, h.len + pl.len + 1);
    if ok {
      PartsInMemory(scratch[..], slice, h, pl, s);
      h, pl, s, input := Offset(h, slice.at), Offset(pl, slice.at), Offset(s, slice.at), Offset(input, slice.at);
    }
  }

  /** The parts of a text in memory, and its signing input, as slices of the memory. */
  lemma PartsInMemory(mem: bytes, text: Span, h: Span, pl: Span, s: Span)
    requires text.at + text.len <= |mem|
    requires h.at == 0 && pl.at == h.len + 1 && s.at == h.len + pl.len + 2 && s.at + s.len == text.len
    requires var t := Cut(mem, text); Split(t) == Some(Parts(Cut(t, h), Cut(t, pl), Cut(t, s)))
    ensures Split(Cut(mem, text))
         == Some(Parts(Cut(mem, Offset(h, text.at)), Cut(mem, Offset(pl, text.at)), Cut(mem, Offset(s, text.at))))
    ensures Cut(mem, Offset(Span(0, h.len + pl.len + 1), text.at)) == SigningInput(Split(Cut(mem, text)).value)
  {
    PartsInPlace(Cut(mem, text));
    SubCut(mem, text, h);
    SubCut(mem, text, pl);
    SubCut(mem, text, s);
    SubCut(mem, text, Span(0, h.len + pl.len + 1));
  }

  /** From the decoded JWS header on: the search for "sjwk", whose reader is used again later. */
  method AuthenticateHeader(o: Oracle, manifest: bytes, keys: seq<RootKey>, p: Parts, scratch: array<byte>,
                            headerLength: nat, persistentHead: nat, reusableRoot: nat)
    returns (r: Outcome)
    requires o.Contract() && RootsFit(o, keys) && scratch.Length >= SCRATCH_USED
    requires headerLength <= JWS_HEADER_SIZE && persistentHead == JWK_PAYLOAD_AT && reusableRoot == REUSABLE_AT
    modifies scratch
    ensures var mem := old(scratch[..]);
            && r == (if headerLength == 0 then Indeterminate
                     else HeaderVerdict(o, manifest, keys, mem[JWK_SIGNATURE_AT..SHA_SCRATCH_AT], p,
                                        mem[..headerLength]))
            && scratch[..][SCRATCH_USED..] == mem[SCRATCH_USED..]
  {
    ghost var header := scratch[..headerLength];
    assert scratch[..][..headerLength] == header;
    var reader := new JsonReader();
    reader.Init(0, scratch[..headerLength], o.tokenize);
    if !reader.live {
      return Indeterminate;
    }
    var sjwk := reader.FindStringValue(1, SJWK);
    if sjwk.None? {
      return Rejected;
    }
    r := AuthenticateJwk(o, manifest, keys, p, scratch, reader, sjwk.value, persistentHead, reusableRoot, header);
  }

  /** The decoded JWS header, and what it leaves alone. */
  lemma HeaderInPlace(mem: bytes, header: bytes)
    requires |mem| >= SCRATCH_USED && |header| <= JWS_HEADER_SIZE
    ensures var r := Write(mem, 0, header);
            && r[..|header|] == header
            && r[JWK_SIGNATURE_AT..SHA_SCRATCH_AT] == mem[JWK_SIGNATURE_AT..SHA_SCRATCH_AT]
            && r[SCRATCH_USED..] == mem[SCRATCH_USED..]
  {
    ReadBack(mem, 0, header);
    ReadElsewhere(mem, 0, header, JWK_SIGNATURE_AT, SHA_SCRATCH_AT);
    ReadElsewhere(mem, 0, header, SCRATCH_USED, |mem|);
  }

  /** From the split JWS on. */
  method AuthenticateParts(o: Oracle, manifest: bytes, keys: seq<RootKey>, p: Parts, scratch: array<byte>)
    returns (r: Outcome)
    requires o.Contract() && RootsFit(o, keys) && scratch.Length >= SCRATCH_USED
    modifies scratch
    ensures r == PartsVerdict(o, manifest, keys, old(scratch[..])[JWK_SIGNATURE_AT..SHA_SCRATCH_AT], p)
    ensures scratch[..][SCRATCH_USED..] == old(scratch[..])[SCRATCH_USED..]
  {
    ghost var mem := scratch[..];
    var persistentHead := 0;
    var reusableRoot := persistentHead + JWS_HEADER_SIZE + JWK_PAYLOAD_SIZE;
    var ok, headerLength := DecodeInto(o.decodeUrl, Caller(p.header), scratch, persistentHead, JWS_HEADER_SIZE);
    HeaderInPlace(mem, o.decodeUrl(p.header, JWS_HEADER_SIZE).written);
    persistentHead := persistentHead + JWS_HEADER_SIZE;
    if !ok {
      return Rejected;
    }
    r := AuthenticateHeader(o, manifest, keys, p, scratch, headerLength, persistentHead, reusableRoot);
  }

  /** `AzureIoTJWS_ManifestAuthenticate`. `docs` are the objects that the JSON texts spell. */
  method ManifestAuthenticate(o: Oracle, manifest: bytes, jws: bytes, keys: seq<RootKey>, scratch: array<byte>,
                              ghost docs: Documents)
    returns (r: Outcome)
    requires o.Contract() && RootsFit(o, keys) && scratch.Length >= SCRATCH_USED
    modifies scratch
    ensures r == Verdict(o, manifest, jws, keys, old(scratch[..]))
    ensures Trusted(o, manifest, jws, keys) <==> r == Authentic && Covered(o, jws, keys)
    ensures StrictlyTrusted(o, manifest, jws, keys) <==>
              r == Authentic && Covered(o, jws, keys) && ExactLengths(o, jws, keys)
    ensures ParserContract(o, docs) && NamedOnce(o, docs, jws) ==>
              (DocumentTrusted(o, docs, manifest, jws, keys) && !SjwkFirst(o, docs, jws)
               <==> r == Authentic && Covered(o, jws, keys) && WellFormed(o, docs, jws))
    ensures ParserContract(o, docs) && NamedOnce(o, docs, jws) ==>
              (DocumentStrictlyTrusted(o, docs, manifest, jws, keys) && !SjwkFirst(o, docs, jws)
               <==> && r == Authentic && Covered(o, jws, keys)
                    && ExactLengths(o, jws, keys) && WellFormed(o, docs, jws))
    ensures Covered(o, jws, keys) ==> r != Indeterminate
    ensures scratch[..][SCRATCH_USED..] == old(scratch[..])[SCRATCH_USED..]
  {
    TrustedIffAcceptedAndCovered(o, manifest, jws, keys, scratch[..]);
    StrictlyTrustedIff(o, manifest, jws, keys, scratch[..]);
    if ParserContract(o, docs) && NamedOnce(o, docs, jws) {
      AcceptedIffDocumentTrusted(o, docs, manifest, jws, keys, scratch[..]);
      AcceptedIffDocumentStrictlyTrusted(o, docs, manifest, jws, keys, scratch[..]);
    }
    if Covered(o, jws, keys) {
      CoveredIsDecided(o, manifest, jws, keys, scratch[..]);
    }
    var ok, h, pl, s := SplitJws(jws);
    if !ok {
      return Rejected;
    }
    r := AuthenticateParts(o, manifest, keys, Parts(Cut(jws, h), Cut(jws, pl), Cut(jws, s)), scratch);
  }
}
