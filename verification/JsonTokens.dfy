/** The JSON reader as the middleware uses it, and the walks over its tokens that look for one
    property (`ports/mbedTLS/azure_iot_jws_mbedtls.c`). The tokenizer itself belongs to the Azure SDK
    for Embedded C: a text is represented by the tokens the reader yields before its first failure. */
module JsonTokens {
  import opened Common

  datatype Kind =
    | BeginObject | EndObject | BeginArray | EndArray
    | PropertyName | String | Number | True | False | Null

  /** `slice` is the raw token inside the text; `text` is its unescaped value, for names and strings. */
  datatype Token = Token(kind: Kind, slice: Span, text: bytes)

  type Tokens = seq<Token>

  /** Every token is a slice of a text of `bound` bytes. */
  predicate SlicesWithin(toks: Tokens, bound: nat) {
    forall t | t in toks :: t.slice.at + t.slice.len <= bound
  }

  predicate Opens(k: Kind) { k.BeginObject? || k.BeginArray? }
  predicate Closes(k: Kind) { k.EndObject? || k.EndArray? }

  /** The comparison of `AzureIoTJSONReader_TokenIsTextEqual`: only names and strings can match. */
  predicate TextIs(t: Token, name: bytes) {
    (t.kind.PropertyName? || t.kind.String?) && t.text == name
  }

  // ----- Reader positions. `next` tokens have been read; the current one is `toks[next - 1]`. -----

  /** Reads on from inside `depth` open containers until the outermost of them is closed. */
  function SkipNested(toks: Tokens, next: nat, depth: nat): (r: Option<nat>)
    requires next <= |toks|
    ensures r.Some? ==> next <= r.value <= |toks|
    decreases |toks| - next
  {
    if depth == 0 then Some(next)
    else if next == |toks| then None
    else
      var k := toks[next].kind;
      SkipNested(toks, next + 1, if Opens(k) then depth + 1 else if Closes(k) then depth - 1 else depth)
  }

  /** `AzureIoTJSONReader_SkipChildren`: a property name moves to its value, the start of an object or
      array moves to the matching end, and any other token stays. */
  function AfterChildren(toks: Tokens, next: nat): (r: Option<nat>)
    requires 0 < next <= |toks|
    ensures r.Some? ==> next <= r.value <= |toks|
  {
    var value := if toks[next - 1].kind.PropertyName? then next + 1 else next;
    if value > |toks| then None
    else if Opens(toks[value - 1].kind) then SkipNested(toks, value, 1)
    else Some(value)
  }

  /** The walk shared by the three single-value searches, from the current token on: the position
      right after the token that follows the first match, or None when a read fails first. */
  function FindValue(toks: Tokens, next: nat, name: bytes): (r: Option<nat>)
    requires 0 < next <= |toks|
    ensures r.Some? ==> next < r.value <= |toks|
    decreases |toks| - next
  {
    if TextIs(toks[next - 1], name) then
      if next < |toks| then Some(next + 1) else None
    else if next == |toks| then None
    else
      match AfterChildren(toks, next + 1)
      case None => None
      case Some(m) => if m < |toks| then FindValue(toks, m + 1, name) else None
  }

  /** A search that reads `lead` more tokens before its walk, and whose result must be a string. */
  function Search(toks: Tokens, next: nat, lead: nat, name: bytes): (r: Option<nat>)
    requires next <= |toks| && next + lead > 0
    ensures r.Some? ==> 0 < r.value <= |toks| && toks[r.value - 1].kind.String?
    decreases lead
  {
    if lead > 0 then
      if next < |toks| then Search(toks, next + 1, lead - 1, name) else None
    else
      match FindValue(toks, next, name)
      case None => None
      case Some(m) => if toks[m - 1].kind.String? then Some(m) else None
  }

  /** A whole search over a text. */
  function FindString(toks: Tokens, lead: nat, name: bytes): (r: Option<nat>)
    requires lead > 0
    ensures r.Some? ==> 0 < r.value <= |toks| && toks[r.value - 1].kind.String?
  {
    Search(toks, 0, lead, name)
  }

  /** The slices of the three parts of a signing key; an empty slice has not been found yet. */
  datatype KeyParts = KeyParts(n: Span, e: Span, alg: Span)

  const NO_PARTS := KeyParts(Span(0, 0), Span(0, 0), Span(0, 0))

  predicate AllFound(p: KeyParts) { p.n.len != 0 && p.e.len != 0 && p.alg.len != 0 }

  predicate PartsWithin(p: KeyParts, bound: nat) {
    p.n.at + p.n.len <= bound && p.e.at + p.e.len <= bound && p.alg.at + p.alg.len <= bound
  }

  // The names and the one supported algorithm, in ASCII.
  const SJWK: bytes := [115, 106, 119, 107]
  const KID: bytes := [107, 105, 100]
  const SHA256: bytes := [115, 104, 97, 50, 53, 54]
  const N: bytes := [110]
  const E: bytes := [101]
  const ALG: bytes := [97, 108, 103]
  const RS256: bytes := [82, 83, 50, 53, 54]

  /** A name as it is written in the source. */
  function Ascii(name: string): bytes
    requires forall i | 0 <= i < |name| :: name[i] < 128 as char
  {
    seq(|name|, i requires 0 <= i < |name| => name[i] as byte)
  }

  lemma NamesAreSpelled()
    ensures SJWK == Ascii("sjwk") && KID == Ascii("kid") && SHA256 == Ascii("sha256")
    ensures N == Ascii("n") && E == Ascii("e") && ALG == Ascii("alg") && RS256 == Ascii("RS256")
  {
  }

  predicate IsKeyName(t: Token) { TextIs(t, N) || TextIs(t, E) || TextIs(t, ALG) }

  /** Records `value` under the key name that the token `t` spells. */
  function Record(p: KeyParts, t: Token, value: Span): KeyParts
    requires IsKeyName(t)
  {
    if TextIs(t, N) then p.(n := value)
    else if TextIs(t, E) then p.(e := value)
    else p.(alg := value)
  }

  /** The loop of `prvFindKeyParts` from the current token on. */
  function FindParts(toks: Tokens, next: nat, p: KeyParts): (r: Option<KeyParts>)
    requires 0 < next <= |toks|
    ensures r.Some? ==> AllFound(r.value)
    decreases |toks| - next
  {
    if AllFound(p) then Some(p)
    else if next == |toks| then None
    else if IsKeyName(toks[next - 1]) then
      var p' := Record(p, toks[next - 1], toks[next].slice);
      if next + 1 < |toks| then FindParts(toks, next + 2, p') else None
    else
      match AfterChildren(toks, next + 1)
      case None => None
      case Some(m) => if m < |toks| then FindParts(toks, m + 1, p) else None
  }

  /** `prvFindKeyParts` on a reader that has already read `next` tokens: it reads two more first. */
  function KeyPartsFrom(toks: Tokens, next: nat): (r: Option<KeyParts>)
    ensures r.Some? ==> AllFound(r.value)
  {
    if next + 2 > |toks| then None else FindParts(toks, next + 2, NO_PARTS)
  }

  /** Every slice found is the slice of some token of the text. */
  lemma {:induction false} PartsAreSlices(toks: Tokens, next: nat, p: KeyParts, bound: nat)
    requires 0 < next <= |toks|
    requires SlicesWithin(toks, bound)
    requires PartsWithin(p, bound)
    ensures FindParts(toks, next, p).Some? ==> PartsWithin(FindParts(toks, next, p).value, bound)
    decreases |toks| - next
  {
    if AllFound(p) || next == |toks| {
    } else if IsKeyName(toks[next - 1]) {
      assert toks[next] in toks;
      if next + 1 < |toks| {
        PartsAreSlices(toks, next + 2, Record(p, toks[next - 1], toks[next].slice), bound);
      }
    } else {
      var m := AfterChildren(toks, next + 1);
      if m.Some? && m.value < |toks| {
        PartsAreSlices(toks, m.value + 1, p, bound);
      }
    }
  }

  /** The reader that the C code keeps on its stack. Until a first successful `Init` it holds
      indeterminate memory, which `live == false` records. */
  class JsonReader {
    var live: bool
    var base: nat      // where the text starts in the scratch buffer
    var toks: Tokens
    var next: nat

    constructor ()
      ensures !live && toks == [] && next == 0
    {
      live, base, toks, next := false, 0, [], 0;
    }

    ghost predicate Valid()
      reads this
    {
      next <= |toks|
    }

    /** `AzureIoTJSONReader_Init` refuses an empty text and then leaves the reader as it was. */
    method Init(at: nat, text: bytes, tokenize: bytes -> Tokens)
      modifies this
      ensures text != [] ==> live && base == at && toks == tokenize(text) && next == 0
      ensures text == [] ==> unchanged(this)
    {
      if text != [] {
        live, base, toks, next := true, at, tokenize(text), 0;
      }
    }

    method NextToken() returns (ok: bool)
      requires Valid()
      modifies this`next
      ensures Valid() && ok == (old(next) < |toks|)
      ensures next == if ok then old(next) + 1 else old(next)
    {
      ok := next < |toks|;
      if ok {
        next := next + 1;
      }
    }

    method SkipChildren() returns (ok: bool)
      requires Valid() && next > 0
      modifies this`next
      ensures Valid()
      ensures ok == AfterChildren(toks, old(next)).Some?
      ensures ok ==> next == AfterChildren(toks, old(next)).value
    {
      if toks[next - 1].kind.PropertyName? {
        ok := NextToken();
        if !ok {
          return false;
        }
      }
      if !Opens(toks[next - 1].kind) {
        return true;
      }
      var depth: nat := 1;
      ghost var start := next;
      while depth > 0
        invariant Valid() && next > 0
        invariant SkipNested(toks, next, depth) == SkipNested(toks, start, 1)
        decreases |toks| - next
      {
        ok := NextToken();
        if !ok {
          return false;
        }
        var k := toks[next - 1].kind;
        if Opens(k) {
          depth := depth + 1;
        } else if Closes(k) {
          depth := depth - 1;
        }
      }
      return true;
    }

    /** The searches for "sjwk" (one token read before the loop), "kid" and "sha256" (two tokens). */
    method FindStringValue(lead: nat, name: bytes) returns (r: Option<Span>)
      requires Valid() && next == 0 && lead > 0
      modifies this`next
      ensures Valid()
      ensures r.Some? == FindString(toks, lead, name).Some?
      ensures r.Some? ==>
                && next == FindString(toks, lead, name).value
                && var s := toks[next - 1].slice;
                r.value == Span(base + s.at, s.len)
    {
      var ok := true;
      ghost var remaining := lead;
      while next < lead
        invariant Valid() && next <= lead && remaining == lead - next
        invariant Search(toks, next, remaining, name) == FindString(toks, lead, name)
      {
        ok := NextToken();
        if !ok {
          return None;
        }
        remaining := remaining - 1;
      }
      assert next == lead && remaining == 0;
      while true
        invariant Valid() && 0 < next && lead <= |toks|
        invariant FindValue(toks, next, name) == FindValue(toks, lead, name)
        decreases |toks| - next
      {
        if TextIs(toks[next - 1], name) {
          ok := NextToken();
          if !ok {
            return None;
          }
          break;
        }
        ok := NextToken();
        if !ok {
          return None;
        }
        ok := SkipChildren();
        if !ok {
          return None;
        }
        ok := NextToken();
        if !ok {
          return None;
        }
      }
      if !toks[next - 1].kind.String? {
        return None;
      }
      var s := toks[next - 1].slice;
      return Some(Span(base + s.at, s.len));
    }

    /** `prvFindKeyParts`; unlike the other searches it starts wherever the reader stands. The slices
        returned are relative to `base`. */
    method FindKeyParts() returns (r: Option<KeyParts>)
      requires Valid()
      modifies this`next
      ensures r == KeyPartsFrom(toks, old(next))
    {
      var ok := NextToken();
      if !ok {
        return None;
      }
      ok := NextToken();
      if !ok {
        return None;
      }
      var p := NO_PARTS;
      ghost var start := next;
      while ok && !AllFound(p)
        invariant Valid() && 0 < next
        invariant ok ==> FindParts(toks, next, p) == FindParts(toks, start, NO_PARTS)
        invariant !ok ==> FindParts(toks, start, NO_PARTS) == None
        decreases ok, |toks| - next
      {
        var name := toks[next - 1];
        ok := NextToken();
        if !ok {
          return None;
        }
        if IsKeyName(name) {
          p := Record(p, name, toks[next - 1].slice);
        } else {
          ok := SkipChildren();
          if !ok {
            return None;
          }
        }
        ok := NextToken();
      }
      return if ok then Some(p) else None;
    }
  }
}
