/** SAS token construction (`prvIoTHubClientGetToken`, `prvProvClientGetToken` and
    `AzureIoT_Base64HMACCalculate`): message, decoded key, hash and encoded hash share one buffer. */
module SasToken {
  import opened Common

  const HASH_SIZE: nat := 33
  const HMAC_LENGTH: nat := 48

  /** The Azure SDK calls and the application's HMAC callback. The second argument of a call that
      writes is the size of its region. */
  datatype Sdk = Sdk(
    signature: (nat, nat) -> Output,
    decode: (bytes, nat) -> Output,
    encode: (bytes, nat) -> Output,
    password: (nat, bytes, nat) -> Output,
    hmac: (bytes, bytes) -> Output)
  {
    /** Calls stay inside their regions, Base64 turns every 3 bytes begun into 4 characters (section 4
        of RFC 4648) and fails only for lack of room, and the callback reports at most 33 bytes. */
    ghost predicate Contract() {
      && (forall t: nat, cap: nat :: |signature(t, cap).written| <= cap)
      && (forall s: bytes, cap: nat :: |decode(s, cap).written| <= cap)
      && (forall s: bytes, cap: nat {:trigger encode(s, cap)} ::
            && |encode(s, cap).written| <= cap
            && (encode(s, cap).ok <==> EncodedLength(|s|) <= cap)
            && (encode(s, cap).ok ==> |encode(s, cap).written| == EncodedLength(|s|)))
      && (forall t: nat, s: bytes, cap: nat :: |password(t, s, cap).written| <= cap)
      && (forall k: bytes, m: bytes :: |hmac(k, m).written| <= HASH_SIZE)
    }
  }

  function EncodedLength(n: nat): nat { (n + 2) / 3 * 4 }

  datatype Result = Ok(text: bytes) | Err(code: AzureResult)

  /** The Base64 text of the HMAC of `message` under the decoded `key`, given `room` for key and hash
      and `outputSize` for the text. */
  function EncodedHmac(o: Sdk, key: bytes, message: bytes, room: nat, outputSize: nat): Result
    requires o.Contract()
  {
    if key == [] || message == [] || room == 0 then Err(ErrorInvalidArgument)
    else
      var k := o.decode(key, room);
      if !k.ok then Err(ErrorFailed)
      else if room - |k.written| < HASH_SIZE then Err(ErrorOutOfMemory)
      else
        var hash := o.hmac(k.written, message);
        if !hash.ok then Err(ErrorFailed)
        else
          var text := o.encode(hash.written, outputSize);
          if text.ok then Ok(text.written) else Err(ErrorFailed)
  }

  /** The token that a buffer of `size` bytes yields. */
  function Token(o: Sdk, expiry: nat, key: bytes, size: nat): Result
    requires o.Contract()
  {
    var message := o.signature(expiry, size);
    if !message.ok then Err(CoreError(0))
    else if size - |message.written| < HMAC_LENGTH then Err(ErrorOutOfMemory)
    else
      match EncodedHmac(o, key, message.written, size - |message.written| - HMAC_LENGTH, HMAC_LENGTH)
      case Err(_) => Err(ErrorFailed)
      case Ok(hmac) =>
        var password := o.password(expiry, hmac, size - HMAC_LENGTH);
        if password.ok then Ok(password.written) else Err(CoreError(1))
  }

  /** The Base64 text of the hash of the message under the decoded key, and what each failure yields. */
  lemma HmacIs(o: Sdk, key: bytes, message: bytes, room: nat, outputSize: nat)
    requires o.Contract()
    ensures var k := o.decode(key, room);
            var hash := o.hmac(k.written, message);
            var text := o.encode(hash.written, outputSize);
            EncodedHmac(o, key, message, room, outputSize)
            == if key == [] || message == [] || room == 0 then Err(ErrorInvalidArgument)
               else if !k.ok then Err(ErrorFailed)
               else if |k.written| + 33 > room then Err(ErrorOutOfMemory)
               else if !hash.ok || !text.ok then Err(ErrorFailed)
               else Ok(text.written)
  {
  }

  /** What makes a token, in the calls that are made: the key is decoded into what the message leaves of
      the buffer, the message is hashed under the decoded key, and the password carries that hash. */
  ghost predicate TokenMade(o: Sdk, expiry: nat, key: bytes, size: nat, text: bytes) {
    var m := o.signature(expiry, size);
    && m.ok && m.written != [] && key != [] && |m.written| + 48 < size
    && var room: nat := size - |m.written| - 48;
       var k := o.decode(key, room);
       && k.ok && |k.written| + 33 <= room
       && var hash := o.hmac(k.written, m.written);
          && hash.ok
          && o.password(expiry, o.encode(hash.written, 48).written, size - 48) == Output(true, text)
  }

  /** A token is made if and only if all of this succeeds, and it is that password. */
  lemma TokenIs(o: Sdk, expiry: nat, key: bytes, size: nat, text: bytes)
    requires o.Contract()
    ensures Token(o, expiry, key, size) == Ok(text) <==> TokenMade(o, expiry, key, size, text)
  {
    var m := o.signature(expiry, size);
    if m.ok && |m.written| + HMAC_LENGTH <= size {
      var room: nat := size - |m.written| - HMAC_LENGTH;
      var k := o.decode(key, room);
      EncodedHashFits(o, o.hmac(k.written, m.written).written);
    }
  }

  /** The result of each failure. */
  lemma TokenFailures(o: Sdk, expiry: nat, key: bytes, size: nat)
    requires o.Contract() && Token(o, expiry, key, size).Err?
    ensures var m := o.signature(expiry, size);
            Token(o, expiry, key, size).code
            == if !m.ok then CoreError(0)
               else if |m.written| + 48 > size then ErrorOutOfMemory
               else if EncodedHmac(o, key, m.written, size - |m.written| - 48, 48).Err? then ErrorFailed
               else CoreError(1)
  {
  }

  /** The regions of a successful call do not overlap, lie inside the buffer and leave the encoded
      hash room to spare; the length check after the HMAC cannot fail. */
  lemma Regions(o: Sdk, expiry: nat, key: bytes, size: nat)
    requires o.Contract() && Token(o, expiry, key, size).Ok?
    ensures var used := |o.signature(expiry, size).written|;
            var room := size - used - HMAC_LENGTH;
            var k := |o.decode(key, room).written|;
            && 0 < used <= used + k <= used + k + HASH_SIZE <= size - HMAC_LENGTH
            && size > HMAC_LENGTH
            && forall hash: bytes {:trigger o.encode(hash, HMAC_LENGTH)} | |hash| <= HASH_SIZE ::
                 o.encode(hash, HMAC_LENGTH).ok && |o.encode(hash, HMAC_LENGTH).written| <= 44
  {
    forall hash: bytes | |hash| <= HASH_SIZE
      ensures o.encode(hash, HMAC_LENGTH).ok && |o.encode(hash, HMAC_LENGTH).written| <= 44
    {
      EncodedHashFits(o, hash);
    }
  }

  /** The Base64 text of at most 33 bytes has at most 44 characters. */
  lemma EncodedHashFits(o: Sdk, hash: bytes)
    requires o.Contract() && |hash| <= HASH_SIZE
    ensures o.encode(hash, HMAC_LENGTH).ok && |o.encode(hash, HMAC_LENGTH).written| <= 44
  {
    assert EncodedLength(|hash|) <= 44;
  }

  /** The SDK calls write the same bytes into any region that is large enough. */
  ghost predicate SizeBlind(o: Sdk) {
    && (forall t: nat, a: nat, b: nat {:trigger o.signature(t, a), o.signature(t, b)} ::
          o.signature(t, a).ok && o.signature(t, b).ok ==> o.signature(t, a) == o.signature(t, b))
    && (forall s: bytes, a: nat, b: nat {:trigger o.decode(s, a), o.decode(s, b)} ::
          o.decode(s, a).ok && o.decode(s, b).ok ==> o.decode(s, a) == o.decode(s, b))
    && (forall t: nat, s: bytes, a: nat, b: nat {:trigger o.password(t, s, a), o.password(t, s, b)} ::
          o.password(t, s, a).ok && o.password(t, s, b).ok ==> o.password(t, s, a) == o.password(t, s, b))
  }

  /** The token does not depend on the size of the buffer it was built in. */
  lemma TokenIgnoresSize(o: Sdk, expiry: nat, key: bytes, a: nat, b: nat)
    requires o.Contract() && SizeBlind(o) && Token(o, expiry, key, a).Ok? && Token(o, expiry, key, b).Ok?
    ensures Token(o, expiry, key, a) == Token(o, expiry, key, b)
  {
    var message := o.signature(expiry, a).written;
    assert message == o.signature(expiry, b).written;
    var roomA: nat, roomB: nat := a - |message| - HMAC_LENGTH, b - |message| - HMAC_LENGTH;
    assert o.decode(key, roomA) == o.decode(key, roomB);
    var hmac := EncodedHmac(o, key, message, roomA, HMAC_LENGTH).text;
    assert hmac == EncodedHmac(o, key, message, roomB, HMAC_LENGTH).text;
    assert o.password(expiry, hmac, a - HMAC_LENGTH) == o.password(expiry, hmac, b - HMAC_LENGTH);
  }

  /** `AzureIoT_Base64HMACCalculate`: the key is decoded into `work`, the hash stands behind it, and
      its Base64 text goes to `output`. `kept` is any region outside both. */
  method Base64HmacCalculate(o: Sdk, key: bytes, a: array<byte>, message: Span, work: Span, output: Span,
                             ghost kept: Span)
    returns (r: AzureResult, length: nat)
    requires o.Contract()
    requires message.at + message.len <= a.Length && work.at + work.len <= a.Length
    requires output.at + output.len <= a.Length
    requires Apart(message, work) && Apart(message, output) && Apart(work, output)
    requires kept.at + kept.len <= a.Length && Apart(kept, work) && Apart(kept, output)
    modifies a
    ensures var m := Cut(old(a[..]), message);
            var k := o.decode(key, work.len);
            var hash := o.hmac(k.written, m);
            var text := o.encode(hash.written, output.len);
            && r == (if key == [] || m == [] || work.len == 0 then ErrorInvalidArgument
                     else if !k.ok then ErrorFailed
                     else if |k.written| + 33 > work.len then ErrorOutOfMemory
                     else if !hash.ok || !text.ok then ErrorFailed
                     else Success)
            && (r.Success? ==>
                  length == |text.written| <= output.len && Cut(a[..], Span(output.at, length)) == text.written)
    ensures Cut(a[..], kept) == Cut(old(a[..]), kept)
  {
    length := 0;
    if key == [] || message.len == 0 || work.len == 0 {
      return ErrorInvalidArgument, length;
    }
    ghost var m0 := a[..];
    var k := o.decode(key, work.len);
    Store(a, work.at, k.written);
    CutKept(m0, work.at, k.written, kept);
    CutKept(m0, work.at, k.written, message);
    CutWritten(m0, work.at, k.written);
    if !k.ok {
      return ErrorFailed, length;
    }
    var left: nat := work.len - |k.written|;
    if HASH_SIZE > left {
      return ErrorOutOfMemory, length;
    }
    r, length := HashAndEncode(o, a, Span(work.at, |k.written|), message, work.at + |k.written|, output, kept);
  }

  /** The part of it after the key has been decoded. */
  method HashAndEncode(o: Sdk, a: array<byte>, key: Span, message: Span, hashAt: nat, output: Span, ghost kept: Span)
    returns (r: AzureResult, length: nat)
    requires o.Contract()
    requires key.at + key.len == hashAt && hashAt + HASH_SIZE <= a.Length
    requires message.at + message.len <= a.Length && output.at + output.len <= a.Length
    requires kept.at + kept.len <= a.Length
    requires var hash := Span(hashAt, HASH_SIZE);
             Apart(message, hash) && Apart(hash, output) && Apart(kept, hash) && Apart(kept, output)
    modifies a
    ensures var hash := o.hmac(Cut(old(a[..]), key), Cut(old(a[..]), message));
            var text := o.encode(hash.written, output.len);
            && r == (if hash.ok && text.ok then Success else ErrorFailed)
            && (hash.ok && text.ok ==>
                  length == |text.written| && Cut(a[..], Span(output.at, length)) == text.written)
    ensures Cut(a[..], kept) == Cut(old(a[..]), kept)
  {
    ghost var m0 := a[..];
    ghost var zeros: bytes := seq(HASH_SIZE, _ => 0);
    Store(a, hashAt, seq(HASH_SIZE, _ => 0));
    ghost var m1 := a[..];
    CutKept(m0, hashAt, zeros, kept);
    CutKept(m0, hashAt, zeros, key);
    CutKept(m0, hashAt, zeros, message);
    var hash := o.hmac(a[key.at..key.at + key.len], a[message.at..message.at + message.len]);
    assert a[key.at..key.at + key.len] == Cut(m1, key) && a[message.at..message.at + message.len] == Cut(m1, message);
    Store(a, hashAt, hash.written);
    ghost var m2 := a[..];
    CutKept(m1, hashAt, hash.written, kept);
    CutWritten(m1, hashAt, hash.written);
    if !hash.ok {
      return ErrorFailed, 0;
    }
    assert a[hashAt..hashAt + |hash.written|] == Cut(m2, Span(hashAt, |hash.written|));
    var text := o.encode(a[hashAt..hashAt + |hash.written|], output.len);
    Store(a, output.at, text.written);
    CutKept(m2, output.at, text.written, kept);
    CutWritten(m2, output.at, text.written);
    if !text.ok {
      return ErrorFailed, 0;
    }
    return Success, |text.written|;
  }

  /** `prvIoTHubClientGetToken` and `prvProvClientGetToken`: the token stands at the start of the
      buffer, and nothing behind the buffer's `size` bytes is touched. */
  method GetToken(o: Sdk, expiry: nat, key: bytes, a: array<byte>, size: nat) returns (r: AzureResult, length: nat)
    requires o.Contract() && size <= a.Length
    modifies a
    ensures var token := Token(o, expiry, key, size);
            && (r.Success? <==> token.Ok?)
            && (token.Err? ==> r == token.code)
            && (token.Ok? ==> length <= size && a[..length] == token.text)
    ensures r.Success? ==> length <= size && TokenMade(o, expiry, key, size, a[..length])
    ensures !r.Success? ==> forall text :: !TokenMade(o, expiry, key, size, text)
    ensures Cut(a[..], Span(size, a.Length - size)) == Cut(old(a[..]), Span(size, a.Length - size))
  {
    length := 0;
    ghost var rest := Span(size, a.Length - size);
    var signed, used := WriteMessage(o, expiry, a, size);
    if !signed {
      return CoreError(0), length;
    }
    var left: nat := size - used;
    if left < HMAC_LENGTH {
      return ErrorOutOfMemory, length;
    }
    left := left - HMAC_LENGTH;
    var hmacAt := size - HMAC_LENGTH;
    var hmacLength;
    r, hmacLength := Base64HmacCalculate(o, key, a, Span(0, used), Span(used, left), Span(hmacAt, HMAC_LENGTH), rest);
    if !r.Success? {
      return ErrorFailed, length;
    }
    assert size > HMAC_LENGTH;  // so the source's second length check never fails
    r, length := WritePassword(o, expiry, a, Span(hmacAt, hmacLength), rest);
  }

  /** `az_iot_..._sas_get_signature` into the start of the buffer. */
  method WriteMessage(o: Sdk, expiry: nat, a: array<byte>, size: nat) returns (ok: bool, used: nat)
    requires o.Contract() && size <= a.Length
    modifies a
    ensures var message := o.signature(expiry, size);
            ok == message.ok && used == |message.written| && Cut(a[..], Span(0, used)) == message.written
    ensures Cut(a[..], Span(size, a.Length - size)) == Cut(old(a[..]), Span(size, a.Length - size))
  {
    ghost var mem := a[..];
    var message := o.signature(expiry, size);
    Store(a, 0, message.written);
    CutKept(mem, 0, message.written, Span(size, a.Length - size));
    CutWritten(mem, 0, message.written);
    return message.ok, |message.written|;
  }

  /** `az_iot_..._sas_get_password`, reading the signature behind the region it writes. */
  method WritePassword(o: Sdk, expiry: nat, a: array<byte>, signature: Span, ghost rest: Span)
    returns (r: AzureResult, length: nat)
    requires o.Contract() && signature.at + signature.len <= a.Length
    requires rest.at + rest.len <= a.Length && signature.at <= rest.at
    modifies a
    ensures var password := o.password(expiry, Cut(old(a[..]), signature), signature.at);
            && r == (if password.ok then Success else CoreError(1))
            && (password.ok ==> length == |password.written| <= signature.at && a[..length] == password.written)
    ensures Cut(a[..], rest) == Cut(old(a[..]), rest) && Cut(a[..], signature) == Cut(old(a[..]), signature)
  {
    ghost var m := a[..];
    assert a[signature.at..signature.at + signature.len] == Cut(m, signature);
    var password := o.password(expiry, a[signature.at..signature.at + signature.len], signature.at);
    Store(a, 0, password.written);
    CutKept(m, 0, password.written, rest);
    CutKept(m, 0, password.written, signature);
    CutWritten(m, 0, password.written);
    assert a[..|password.written|] == Cut(a[..], Span(0, |password.written|));
    return if password.ok then Success else CoreError(1), |password.written|;
  }
}
