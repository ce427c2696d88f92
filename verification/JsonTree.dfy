/** What the token walks mean on a well-formed JSON object: a lookup among its own members. */
module JsonTree {
  import opened Common
  import opened JsonTokens

  /** A JSON value as the tokens it is written with. */
  datatype Json =
    | Leaf(tok: Token)
    | Object(open: Token, members: Members, close: Token)
    | Array(open: Token, items: Items, close: Token)
  datatype Members = NoMembers | Member(name: Token, value: Json, rest: Members)
  datatype Items = NoItems | Item(head: Json, tail: Items)

  predicate IsJson(j: Json) {
    match j
    case Leaf(t) => !Opens(t.kind) && !Closes(t.kind) && !t.kind.PropertyName?
    case Object(o, ms, c) => o.kind.BeginObject? && c.kind.EndObject? && AreMembers(ms)
    case Array(o, xs, c) => o.kind.BeginArray? && c.kind.EndArray? && AreItems(xs)
  }

  predicate AreMembers(ms: Members) {
    match ms
    case NoMembers => true
    case Member(name, v, rest) => name.kind.PropertyName? && IsJson(v) && AreMembers(rest)
  }

  predicate AreItems(xs: Items) {
    match xs
    case NoItems => true
    case Item(x, rest) => IsJson(x) && AreItems(rest)
  }

  /** The tokens the reader yields, in order. */
  function Flatten(j: Json): (r: Tokens)
    ensures |r| > 0
  {
    match j
    case Leaf(t) => [t]
    case Object(o, ms, c) => [o] + FlattenMembers(ms) + [c]
    case Array(o, xs, c) => [o] + FlattenItems(xs) + [c]
  }

  function FlattenMembers(ms: Members): Tokens {
    match ms
    case NoMembers => []
    case Member(name, v, rest) => [name] + Flatten(v) + FlattenMembers(rest)
  }

  function FlattenItems(xs: Items): Tokens {
    match xs
    case NoItems => []
    case Item(x, rest) => Flatten(x) + FlattenItems(rest)
  }

  /** `part` stands in `toks` from index `at` on. */
  predicate Holds(toks: Tokens, at: nat, part: Tokens) {
    at + |part| <= |toks| && forall i | 0 <= i < |part| :: toks[at + i] == part[i]
  }

  lemma HoldsParts(toks: Tokens, at: nat, a: Tokens, b: Tokens)
    requires Holds(toks, at, a + b)
    ensures Holds(toks, at, a) && Holds(toks, at + |a|, b)
  {
    assert forall i | 0 <= i < |a| :: (a + b)[i] == a[i];
    forall i | 0 <= i < |b| ensures toks[at + |a| + i] == b[i] {
      assert (a + b)[|a| + i] == b[i];
    }
  }

  /** The place of each part of an object or array. */
  lemma HoldsContainer(toks: Tokens, at: nat, open: Token, inner: Tokens, close: Token)
    requires Holds(toks, at, [open] + inner + [close])
    ensures toks[at] == open && Holds(toks, at + 1, inner) && toks[at + 1 + |inner|] == close
  {
    HoldsParts(toks, at, [open] + inner, [close]);
    HoldsParts(toks, at, [open], inner);
    assert [close][0] == close && [open][0] == open;
  }

  /** The place of each part of a member, given that `tail` follows the members. */
  lemma HoldsMember(toks: Tokens, at: nat, ms: Members, tail: Tokens)
    requires ms.Member? && Holds(toks, at, FlattenMembers(ms) + tail)
    ensures |FlattenMembers(ms)| == 1 + |Flatten(ms.value)| + |FlattenMembers(ms.rest)|
    ensures toks[at] == ms.name
    ensures Holds(toks, at + 1, Flatten(ms.value)) && toks[at + 1] == Flatten(ms.value)[0]
    ensures Holds(toks, at + 1 + |Flatten(ms.value)|, FlattenMembers(ms.rest) + tail)
  {
    var v, rest := Flatten(ms.value), FlattenMembers(ms.rest) + tail;
    assert FlattenMembers(ms) + tail == [ms.name] + (v + rest);
    HoldsParts(toks, at, [ms.name], v + rest);
    HoldsParts(toks, at + 1, v, rest);
    assert [ms.name][0] == ms.name;
    assert toks[at + 1 + 0] == v[0];
  }

  // ----- Skipping a value, however deeply nested, ends right after it -----

  lemma {:induction false} SkipOver(toks: Tokens, at: nat, j: Json, depth: nat)
    requires IsJson(j) && depth > 0 && Holds(toks, at, Flatten(j))
    ensures SkipNested(toks, at, depth) == SkipNested(toks, at + |Flatten(j)|, depth)
    decreases j
  {
    match j
    case Leaf(t) =>
      assert toks[at + 0] == Flatten(j)[0] == t;
    case Object(o, ms, c) =>
      HoldsContainer(toks, at, o, FlattenMembers(ms), c);
      SkipOverMembers(toks, at + 1, ms, depth + 1);
    case Array(o, xs, c) =>
      HoldsContainer(toks, at, o, FlattenItems(xs), c);
      SkipOverItems(toks, at + 1, xs, depth + 1);
  }

  lemma {:induction false} SkipOverMembers(toks: Tokens, at: nat, ms: Members, depth: nat)
    requires AreMembers(ms) && depth > 0 && Holds(toks, at, FlattenMembers(ms))
    ensures SkipNested(toks, at, depth) == SkipNested(toks, at + |FlattenMembers(ms)|, depth)
    decreases ms
  {
    match ms
    case NoMembers =>
    case Member(name, v, rest) =>
      assert FlattenMembers(ms) + [] == FlattenMembers(ms);
      assert FlattenMembers(rest) + [] == FlattenMembers(rest);
      HoldsMember(toks, at, ms, []);
      SkipOver(toks, at + 1, v, depth);
      SkipOverMembers(toks, at + 1 + |Flatten(v)|, rest, depth);
  }

  lemma {:induction false} SkipOverItems(toks: Tokens, at: nat, xs: Items, depth: nat)
    requires AreItems(xs) && depth > 0 && Holds(toks, at, FlattenItems(xs))
    ensures SkipNested(toks, at, depth) == SkipNested(toks, at + |FlattenItems(xs)|, depth)
    decreases xs
  {
    match xs
    case NoItems =>
    case Item(x, rest) =>
      HoldsParts(toks, at, Flatten(x), FlattenItems(rest));
      SkipOver(toks, at, x, depth);
      SkipOverItems(toks, at + |Flatten(x)|, rest, depth);
  }

  /** With the first token of a value as the current one, the reader ends on its last token. */
  lemma SkipValue(toks: Tokens, at: nat, j: Json)
    requires IsJson(j) && Holds(toks, at, Flatten(j))
    ensures AfterChildren(toks, at + 1) == Some(at + |Flatten(j)|)
  {
    match j
    case Leaf(t) =>
      assert toks[at + 0] == Flatten(j)[0] == t;
    case Object(o, ms, c) =>
      HoldsContainer(toks, at, o, FlattenMembers(ms), c);
      SkipOverMembers(toks, at + 1, ms, 1);
    case Array(o, xs, c) =>
      HoldsContainer(toks, at, o, FlattenItems(xs), c);
      SkipOverItems(toks, at + 1, xs, 1);
  }

  // ----- The three single-value searches -----

  /** The value of the first member called `name`, looking at this object's own members only. */
  function Lookup(ms: Members, name: bytes): Option<Json> {
    match ms
    case NoMembers => None
    case Member(n, v, rest) => if n.text == name then Some(v) else Lookup(rest, name)
  }

  /** The token a search for a string-valued member returns. */
  function StringOf(found: Option<Json>): Option<Token> {
    match found
    case Some(Leaf(t)) => if t.kind.String? then Some(t) else None
    case _ => None
  }

  /** `found` is the position right after the first token of `value`, or there is neither. */
  predicate Agrees(toks: Tokens, found: Option<nat>, value: Option<Json>) {
    match (found, value)
    case (None, None) => true
    case (Some(m), Some(v)) => 0 < m <= |toks| && toks[m - 1] == Flatten(v)[0]
    case _ => false
  }

  /** A walk that stands on the first token of `ms` (or, when there are no members left, on the
      closing brace that ends the text) finds exactly what `Lookup` finds. */
  lemma {:induction false} WalkIsLookup(toks: Tokens, at: nat, ms: Members, close: Token, name: bytes)
    requires AreMembers(ms) && close.kind.EndObject?
    requires Holds(toks, at, FlattenMembers(ms) + [close])
    requires |toks| == at + |FlattenMembers(ms)| + 1
    ensures Agrees(toks, FindValue(toks, at + 1, name), Lookup(ms, name))
    decreases ms
  {
    match ms
    case NoMembers =>
      assert toks[at + 0] == (FlattenMembers(ms) + [close])[0] == close;
    case Member(n, v, rest) =>
      HoldsMember(toks, at, ms, [close]);
      SkipValue(toks, at + 1, v);
      WalkIsLookup(toks, at + 1 + |Flatten(v)|, rest, close, name);
  }

  /** The token that `FindString` finds, if any. */
  function Found(toks: Tokens, lead: nat, name: bytes): Option<Token>
    requires lead > 0
  {
    match FindString(toks, lead, name)
    case None => None
    case Some(m) => Some(toks[m - 1])
  }

  lemma FirstTokenOfLeaf(v: Json)
    requires IsJson(v)
    ensures Flatten(v)[0].kind.String? ==> v == Leaf(Flatten(v)[0])
  {
  }

  /** The searches for "kid" and "sha256": the first top-level member of that name, if its value is
      a string; nothing nested ever matches. */
  lemma TopLevelSearch(j: Json, name: bytes)
    requires IsJson(j) && j.Object?
    ensures Found(Flatten(j), 2, name) == StringOf(Lookup(j.members, name))
  {
    var toks := Flatten(j);
    HoldsObject(j);
    WalkIsLookup(toks, 1, j.members, j.close, name);
    assert Search(toks, 0, 2, name) == Search(toks, 1, 1, name) == Search(toks, 2, 0, name);
    ReadAsString(toks, FindValue(toks, 2, name), j.members, name);
  }

  lemma HoldsObject(j: Json)
    requires j.Object?
    ensures |Flatten(j)| == |FlattenMembers(j.members)| + 2 && Flatten(j)[0] == j.open
    ensures Holds(Flatten(j), 1, FlattenMembers(j.members) + [j.close])
  {
    assert Flatten(j) == [j.open] + (FlattenMembers(j.members) + [j.close]);
  }

  lemma {:induction false} LookupIsJson(ms: Members, name: bytes)
    requires AreMembers(ms)
    ensures Lookup(ms, name).Some? ==> IsJson(Lookup(ms, name).value)
  {
    match ms
    case NoMembers =>
    case Member(_, _, rest) => LookupIsJson(rest, name);
  }

  lemma FirstIsNotName(v: Json)
    requires IsJson(v)
    ensures !Flatten(v)[0].kind.PropertyName?
  {
  }

  /** The search for "sjwk" reads one token less before its loop, so it skips the first member. */
  lemma SearchPastFirst(j: Json, name: bytes)
    requires IsJson(j) && j.Object?
    ensures Found(Flatten(j), 1, name)
         == if j.members.NoMembers? then None else StringOf(Lookup(j.members.rest, name))
  {
    var toks := Flatten(j);
    HoldsObject(j);
    WalkFromBrace(toks, j.members, j.close, name);
    assert Search(toks, 0, 1, name) == Search(toks, 1, 0, name);
    if j.members.Member? {
      ReadAsString(toks, FindValue(toks, 1, name), j.members.rest, name);
    }
  }

  /** A walk that stands on the opening brace of an object finds what a lookup among the members
      after the first one finds. */
  lemma WalkFromBrace(toks: Tokens, ms: Members, close: Token, name: bytes)
    requires AreMembers(ms) && close.kind.EndObject?
    requires |toks| == |FlattenMembers(ms)| + 2 && toks[0].kind.BeginObject?
    requires Holds(toks, 1, FlattenMembers(ms) + [close])
    ensures Agrees(toks, FindValue(toks, 1, name), if ms.NoMembers? then None else Lookup(ms.rest, name))
  {
    match ms
    case NoMembers =>
      assert toks[1 + 0] == (FlattenMembers(ms) + [close])[0] == close;
    case Member(n, v, rest) =>
      HoldsMember(toks, 1, ms, [close]);
      StepPastFirst(toks, n, v, name);
      WalkIsLookup(toks, 2 + |Flatten(v)|, rest, close, name);
  }

  /** A walk that stands on the opening brace steps over the whole first member. */
  lemma StepPastFirst(toks: Tokens, n: Token, v: Json, name: bytes)
    requires IsJson(v) && n.kind.PropertyName? && |toks| > 2 + |Flatten(v)|
    requires toks[0].kind.BeginObject? && toks[1] == n && Holds(toks, 2, Flatten(v))
    ensures FindValue(toks, 1, name) == FindValue(toks, 3 + |Flatten(v)|, name)
  {
    SkipValue(toks, 2, v);
    FirstIsNotName(v);
    assert toks[2 + 0] == Flatten(v)[0];
    assert AfterChildren(toks, 2) == AfterChildren(toks, 3);
  }

  /** Among members of which only one is called `name`, with a string value, the "sjwk" search finds
      it exactly if it is not the first one; the other searches always find it. */
  lemma FoundIffNotFirst(j: Json, name: bytes)
    requires IsJson(j) && j.Object? && StringOf(Lookup(j.members, name)).Some?
    requires j.members.name.text == name ==> Absent(j.members.rest, name)
    ensures Found(Flatten(j), 1, name) == Found(Flatten(j), 2, name) <==> j.members.name.text != name
    ensures j.members.name.text == name ==> Found(Flatten(j), 1, name).None?
  {
    TopLevelSearch(j, name);
    SearchPastFirst(j, name);
  }

  /** What a search returns, given that its walk agrees with a lookup. */
  lemma ReadAsString(toks: Tokens, found: Option<nat>, ms: Members, name: bytes)
    requires AreMembers(ms) && Agrees(toks, found, Lookup(ms, name))
    ensures StringOf(Lookup(ms, name))
         == if found.Some? && toks[found.value - 1].kind.String? then Some(toks[found.value - 1]) else None
  {
    LookupIsJson(ms, name);
    if found.Some? {
      FirstTokenOfLeaf(Lookup(ms, name).value);
    }
  }

  // ----- The signing-key search -----

  predicate IsKeyText(text: bytes) { text == N || text == E || text == ALG }

  /** No member called n, e or alg holds an object or an array. */
  predicate PlainKeys(ms: Members) {
    match ms
    case NoMembers => true
    case Member(n, v, rest) => (IsKeyText(n.text) ==> v.Leaf?) && PlainKeys(rest)
  }

  predicate Absent(ms: Members, name: bytes) { Lookup(ms, name).None? }

  /** Each of n, e and alg names at most one member. */
  predicate DistinctKeys(ms: Members) {
    match ms
    case NoMembers => true
    case Member(n, _, rest) => (IsKeyText(n.text) ==> Absent(rest, n.text)) && DistinctKeys(rest)
  }

  /** What the loop has recorded after reading all of `ms`, if it never stopped early. */
  function Gather(ms: Members, p: KeyParts): KeyParts
    requires AreMembers(ms) && PlainKeys(ms)
  {
    match ms
    case NoMembers => p
    case Member(n, v, rest) =>
      Gather(rest, if AllFound(p) || !IsKeyName(n) then p else Record(p, n, v.tok.slice))
  }

  lemma {:induction false} WalkGathers(toks: Tokens, at: nat, ms: Members, close: Token, p: KeyParts)
    requires AreMembers(ms) && PlainKeys(ms) && close.kind.EndObject?
    requires Holds(toks, at, FlattenMembers(ms) + [close])
    requires |toks| == at + |FlattenMembers(ms)| + 1
    ensures FindParts(toks, at + 1, p) == if AllFound(Gather(ms, p)) then Some(Gather(ms, p)) else None
    decreases ms
  {
    match ms
    case NoMembers =>
      assert toks[at + 0] == (FlattenMembers(ms) + [close])[0] == close;
    case Member(n, v, rest) =>
      if AllFound(p) {
        GatherStops(ms, p);
        return;
      }
      HoldsMember(toks, at, ms, [close]);
      SkipValue(toks, at + 1, v);
      WalkGathers(toks, at + 1 + |Flatten(v)|, rest, close, if IsKeyName(n) then Record(p, n, v.tok.slice) else p);
  }

  lemma {:induction false} GatherStops(ms: Members, p: KeyParts)
    requires AreMembers(ms) && PlainKeys(ms) && AllFound(p)
    ensures Gather(ms, p) == p
  {
    match ms
    case NoMembers =>
    case Member(_, _, rest) => GatherStops(rest, p);
  }

  function SliceOf(found: Option<Json>, otherwise: Span): Span {
    match found
    case Some(Leaf(t)) => t.slice
    case _ => otherwise
  }

  /** Members named at most once are gathered wherever they stand. */
  lemma {:induction false} GatherIsLookup(ms: Members, p: KeyParts)
    requires AreMembers(ms) && PlainKeys(ms) && DistinctKeys(ms)
    requires Lookup(ms, N).Some? ==> p.n.len == 0
    requires Lookup(ms, E).Some? ==> p.e.len == 0
    requires Lookup(ms, ALG).Some? ==> p.alg.len == 0
    ensures Gather(ms, p)
         == KeyParts(SliceOf(Lookup(ms, N), p.n), SliceOf(Lookup(ms, E), p.e), SliceOf(Lookup(ms, ALG), p.alg))
  {
    match ms
    case NoMembers =>
    case Member(n, v, rest) =>
      if AllFound(p) {
        GatherStops(ms, p);
      } else {
        GatherIsLookup(rest, if IsKeyName(n) then Record(p, n, v.tok.slice) else p);
      }
  }

  /** The values of n, e and alg among these members; a missing one and a container have no text. */
  function KeysNamed(ms: Members): KeyParts {
    var none := Span(0, 0);
    KeyParts(SliceOf(Lookup(ms, N), none), SliceOf(Lookup(ms, E), none), SliceOf(Lookup(ms, ALG), none))
  }

  /** `prvFindKeyParts` on an object in which n, e and alg are named at most once, in whatever order
      they stand and whatever is nested between them: it returns their values, or fails if one of them
      is missing or empty, exactly if none of them holds a container or the search fails. For the loop
      goes on inside a container, and what it finds there is not a member of this object. */
  lemma KeySearch(j: Json)
    requires IsJson(j) && j.Object? && DistinctKeys(j.members)
    ensures var found := KeysNamed(j.members);
            KeyPartsFrom(Flatten(j), 0) == (if AllFound(found) then Some(found) else None)
            <==> PlainKeys(j.members) || KeyPartsFrom(Flatten(j), 0).None?
    ensures AllFound(KeysNamed(j.members)) ==> PlainKeys(j.members)
  {
    if PlainKeys(j.members) {
      HoldsObject(j);
      WalkGathers(Flatten(j), 1, j.members, j.close, NO_PARTS);
      GatherIsLookup(j.members, NO_PARTS);
    } else {
      ContainerIsNoText(j.members);
    }
  }

  /** A container under one of the three names, if that is the only member of the name. */
  lemma {:induction false} ContainerIsNoText(ms: Members)
    requires DistinctKeys(ms) && !PlainKeys(ms)
    ensures exists name :: IsKeyText(name) && Lookup(ms, name).Some? && !Lookup(ms, name).value.Leaf?
  {
    if IsKeyText(ms.name.text) && !ms.value.Leaf? {
      assert Lookup(ms, ms.name.text) == Some(ms.value);
    } else {
      ContainerIsNoText(ms.rest);
      var name :| IsKeyText(name) && Lookup(ms.rest, name).Some? && !Lookup(ms.rest, name).value.Leaf?;
      assert Lookup(ms, name) == Lookup(ms.rest, name);
    }
  }

  lemma NestedKeyTokens(j: Json, inner: Json, n: Token, m: Token, u: Token, e: Token, v: Token, alg: Token, w: Token)
    requires j.Object? && j.members == Member(n, inner, NoMembers) && inner.Object?
    requires inner.members == Member(m, Leaf(u), Member(e, Leaf(v), Member(alg, Leaf(w), NoMembers)))
    ensures Flatten(j) == [j.open, n, inner.open, m, u, e, v, alg, w, inner.close, j.close]
  {
    var last := Member(alg, Leaf(w), NoMembers);
    assert FlattenMembers(last) == [alg, w];
    assert FlattenMembers(Member(e, Leaf(v), last)) == [e, v, alg, w];
    assert FlattenMembers(inner.members) == [m, u, e, v, alg, w];
    assert Flatten(inner) == [inner.open, m, u, e, v, alg, w, inner.close];
    assert FlattenMembers(j.members) == [n, inner.open, m, u, e, v, alg, w, inner.close];
    assert Flatten(j) == [j.open, n, inner.open, m, u, e, v, alg, w, inner.close, j.close];
  }

  /** The other case is reached: of {"n": {"n": u, "e": v, "alg": w}} the search returns the nested
      values, although the object itself has no member e or alg. */
  lemma NestedKeyIsFound(j: Json, inner: Json, n: Token, m: Token, u: Token, e: Token, v: Token, alg: Token, w: Token)
    requires IsJson(j) && j.Object? && n.text == m.text == N && e.text == E && alg.text == ALG
    requires j.members == Member(n, inner, NoMembers) && inner.Object?
    requires inner.members == Member(m, Leaf(u), Member(e, Leaf(v), Member(alg, Leaf(w), NoMembers)))
    requires u.slice.len != 0 && v.slice.len != 0 && w.slice.len != 0
    ensures KeyPartsFrom(Flatten(j), 0) == Some(KeyParts(u.slice, v.slice, w.slice))
    ensures Lookup(j.members, E) == Lookup(j.members, ALG) == None
    ensures DistinctKeys(j.members) && !PlainKeys(j.members)
  {
    var toks := Flatten(j);
    NestedKeyTokens(j, inner, n, m, u, e, v, alg, w);
    assert IsJson(inner) && AreMembers(inner.members) && AreMembers(inner.members.rest);
    assert AreMembers(inner.members.rest.rest);
    assert N[0] != E[0];
    var p0, p1 := NO_PARTS.(n := inner.open.slice), NO_PARTS.(n := u.slice);
    var p2 := p1.(e := v.slice);
    assert FindParts(toks, 2, NO_PARTS) == FindParts(toks, 4, p0);
    assert FindParts(toks, 4, p0) == FindParts(toks, 6, p1);
    assert FindParts(toks, 6, p1) == FindParts(toks, 8, p2);
    assert FindParts(toks, 8, p2) == FindParts(toks, 10, KeyParts(u.slice, v.slice, w.slice));
  }
}
