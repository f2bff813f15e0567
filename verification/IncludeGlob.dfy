/** crates/ostrom-cli/src/policy_manifest.rs, lines 1319-1354: the glob that selects included
    policy files, matched by a worklist of positions over bytes. */
module IncludeGlob {
  newtype byte = b: int | 0 <= b < 256

  const STAR: byte := 42
  const SLASH: byte := 47
  const QUESTION: byte := 63

  type Bytes = seq<byte>

  // ---- What a pattern means ----

  datatype Token = AnyRun | AnyPath | AnyOne | Literal(b: byte)

  // `**` swallows a slash that follows it; that slash is not matched.
  function TokenLength(pattern: Bytes): (n: nat)
    requires pattern != []
    ensures 0 < n <= |pattern|
  {
    if pattern[0] != STAR || |pattern| == 1 || pattern[1] != STAR then 1
    else if |pattern| > 2 && pattern[2] == SLASH then 3
    else 2
  }

  function FirstToken(pattern: Bytes): Token
    requires pattern != []
  {
    if pattern[0] == STAR then (if |pattern| > 1 && pattern[1] == STAR then AnyPath else AnyRun)
    else if pattern[0] == QUESTION then AnyOne
    else Literal(pattern[0])
  }

  function Tokens(pattern: Bytes): seq<Token>
    decreases |pattern|
  {
    if pattern == [] then [] else [FirstToken(pattern)] + Tokens(pattern[TokenLength(pattern)..])
  }

  // The source also compares `?` with itself; that byte is one `?` stands for anyway.
  predicate TokenMatches(t: Token, chunk: Bytes) {
    match t
    case AnyRun => SLASH !in chunk
    case AnyPath => true
    case AnyOne => |chunk| == 1 && chunk[0] != SLASH
    case Literal(b) => chunk == [b]
  }

  function Flatten(chunks: seq<Bytes>): Bytes {
    if chunks == [] then [] else chunks[0] + Flatten(chunks[1..])
  }

  ghost predicate Splits(value: Bytes, tokens: seq<Token>, chunks: seq<Bytes>) {
    && |chunks| == |tokens| && Flatten(chunks) == value
    && forall i :: 0 <= i < |tokens| ==> TokenMatches(tokens[i], chunks[i])
  }

  /** The value can be cut into one piece for each token of the pattern. */
  ghost predicate Matches(value: Bytes, pattern: Bytes) {
    exists chunks :: Splits(value, Tokens(pattern), chunks)
  }

  // ---- One position after another ----

  // The value from `i` on matches the pattern from `j` on.
  predicate From(value: Bytes, pattern: Bytes, i: nat, j: nat)
    requires i <= |value| && j <= |pattern|
    decreases |value| - i + |pattern| - j
  {
    if j == |pattern| then i == |value|
    else if pattern[j] == STAR then
      || From(value, pattern, i, j + TokenLength(pattern[j..]))
      || (i < |value| && (FirstToken(pattern[j..]) == AnyPath || value[i] != SLASH) && From(value, pattern, i + 1, j))
    else
      && i < |value|
      && (pattern[j] == value[i] || (pattern[j] == QUESTION && value[i] != SLASH))
      && From(value, pattern, i + 1, j + 1)
  }

  datatype State = State(value: nat, pattern: nat)

  predicate Before(a: State, b: State) {
    a.value < b.value || (a.value == b.value && a.pattern < b.pattern)
  }

  // Takes the least state, as an ordered set does.
  method PopFirst(states: set<State>) returns (least: State, rest: set<State>)
    requires states != {}
    ensures least in states && rest == states - {least}
    ensures forall s :: s in rest ==> Before(least, s)
  {
    least :| least in states;
    var left := states - {least};
    while left != {}
      invariant left <= states && least in states && least !in left
      invariant forall s :: s in states && s !in left && s != least ==> Before(least, s)
      decreases left
    {
      var s :| s in left;
      left := left - {s};
      if Before(s, least) {
        least := s;
      }
    }
    rest := states - {least};
  }

  ghost predicate InGrid(value: Bytes, pattern: Bytes, states: set<State>) {
    forall s :: s in states ==> s.value <= |value| && s.pattern <= |pattern|
  }

  ghost predicate SomeFrom(value: Bytes, pattern: Bytes, states: set<State>)
    requires InGrid(value, pattern, states)
  {
    exists s :: s in states && From(value, pattern, s.value, s.pattern)
  }

  /** The positions after one; each lies strictly later, and the position matches exactly when one
      of them does or it stands at the end of both. */
  method Successors(value: Bytes, pattern: Bytes, s: State) returns (next: set<State>)
    requires InGrid(value, pattern, {s}) && s.pattern < |pattern|
    ensures InGrid(value, pattern, next)
    ensures forall t :: t in next ==> Before(s, t)
    ensures From(value, pattern, s.value, s.pattern) <==> SomeFrom(value, pattern, next)
  {
    next := {};
    var i, j := s.value, s.pattern;
    if pattern[j] == STAR {
      var double := j + 1 < |pattern| && pattern[j + 1] == STAR;
      var after := j + (if double then 1 else 0) + 1;
      var skip := if double && after < |pattern| && pattern[after] == SLASH then after + 1 else after;
      assert skip == j + TokenLength(pattern[j..]);
      next := next + {State(i, skip)};
      if i < |value| && (double || value[i] != SLASH) {
        next := next + {State(i + 1, j)};
      }
      assert From(value, pattern, i, j) ==> From(value, pattern, i, skip) || State(i + 1, j) in next;
    } else if i < |value| && (pattern[j] == value[i] || (pattern[j] == QUESTION && value[i] != SLASH)) {
      next := next + {State(i + 1, j + 1)};
    }
  }

  lemma SomeFromUnion(value: Bytes, pattern: Bytes, a: set<State>, b: set<State>)
    requires InGrid(value, pattern, a) && InGrid(value, pattern, b)
    ensures InGrid(value, pattern, a + b)
    ensures SomeFrom(value, pattern, a + b) <==> SomeFrom(value, pattern, a) || SomeFrom(value, pattern, b)
  {
    if s :| s in a + b && From(value, pattern, s.value, s.pattern) {
      assert s in a || s in b;
    }
    if s :| s in a && From(value, pattern, s.value, s.pattern) {
      assert s in a + b;
    }
    if s :| s in b && From(value, pattern, s.value, s.pattern) {
      assert s in a + b;
    }
  }

  /** Popped positions strictly increase, so the set of seen ones never rejects a position. */
  method IncludeGlob(value: Bytes, pattern: Bytes) returns (matched: bool)
    ensures matched <==> Matches(value, pattern)
  {
    var states: set<State> := {State(0, 0)};
    var seen: set<State> := {};
    ghost var grid := set i, j | 0 <= i <= |value| && 0 <= j <= |pattern| :: State(i, j);
    FromIsMatches(value, pattern);
    assert From(value, pattern, 0, 0) <==> SomeFrom(value, pattern, states) by {
      assert State(0, 0) in states;
    }
    while states != {}
      invariant InGrid(value, pattern, states) && seen <= grid
      invariant forall s, t :: s in seen && t in states ==> Before(s, t)
      invariant From(value, pattern, 0, 0) <==> SomeFrom(value, pattern, states)
      decreases grid - seen
    {
      ghost var before := states;
      var state;
      state, states := PopFirst(states);
      assert before == {state} + states;
      SomeFromUnion(value, pattern, {state}, states);
      if state in seen {
        assert false;
      }
      assert state in grid;
      seen := seen + {state};
      if state.pattern == |pattern| {
        if state.value == |value| {
          assert state in {state};
          return true;
        }
      } else {
        var next := Successors(value, pattern, state);
        assert state in {state};
        SomeFromUnion(value, pattern, states, next);
        states := states + next;
      }
    }
    matched := false;
  }

  // ---- The positions agree with the pieces ----

  lemma {:induction false} FromGivesChunks(value: Bytes, pattern: Bytes, i: nat, j: nat) returns (chunks: seq<Bytes>)
    requires i <= |value| && j <= |pattern| && From(value, pattern, i, j)
    ensures Splits(value[i..], Tokens(pattern[j..]), chunks)
    decreases |value| - i + |pattern| - j
  {
    if j == |pattern| {
      chunks := [];
    } else {
      var n := TokenLength(pattern[j..]);
      assert pattern[j..][n..] == pattern[j + n..];
      if pattern[j] == STAR {
        if From(value, pattern, i, j + n) {
          var rest := FromGivesChunks(value, pattern, i, j + n);
          chunks := [[]] + rest;
        } else {
          var rest := FromGivesChunks(value, pattern, i + 1, j);
          chunks := [[value[i]] + rest[0]] + rest[1..];
        }
      } else {
        var rest := FromGivesChunks(value, pattern, i + 1, j + 1);
        chunks := [[value[i]]] + rest;
      }
    }
  }

  lemma EmptyPiece(value: Bytes, tokens: seq<Token>, chunks: seq<Bytes>)
    requires Splits(value, tokens, chunks) && chunks != [] && chunks[0] == []
    ensures Splits(value, tokens[1..], chunks[1..])
  {
  }

  lemma ShorterPiece(value: Bytes, tokens: seq<Token>, chunks: seq<Bytes>)
    requires Splits(value, tokens, chunks) && chunks != [] && chunks[0] != []
    requires tokens[0].AnyRun? || tokens[0].AnyPath?
    ensures value != [] && value[0] == chunks[0][0]
    ensures Splits(value[1..], tokens, [chunks[0][1..]] + chunks[1..])
  {
    var shorter := [chunks[0][1..]] + chunks[1..];
    assert shorter[1..] == chunks[1..];
    assert value[1..] == chunks[0][1..] + Flatten(chunks[1..]);
  }

  lemma SinglePiece(value: Bytes, tokens: seq<Token>, chunks: seq<Bytes>)
    requires Splits(value, tokens, chunks) && chunks != []
    requires tokens[0].AnyOne? || tokens[0].Literal?
    ensures value != [] && chunks[0] == [value[0]]
    ensures Splits(value[1..], tokens[1..], chunks[1..])
  {
    assert value == chunks[0] + Flatten(chunks[1..]);
    assert chunks[0] == [value[0]];
    assert value[1..] == Flatten(chunks[1..]);
  }

  // The first piece is empty, one byte shorter, or a single byte.
  lemma SkipsToken(value: Bytes, pattern: Bytes, i: nat, j: nat, chunks: seq<Bytes>)
    requires i <= |value| && j < |pattern| && Splits(value[i..], Tokens(pattern[j..]), chunks) && chunks[0] == []
    ensures pattern[j] == STAR
    ensures Splits(value[i..], Tokens(pattern[j + TokenLength(pattern[j..])..]), chunks[1..])
  {
    var tokens, n := Tokens(pattern[j..]), TokenLength(pattern[j..]);
    assert pattern[j..][n..] == pattern[j + n..];
    assert TokenMatches(tokens[0], chunks[0]);
    EmptyPiece(value[i..], tokens, chunks);
  }

  lemma KeepsToken(value: Bytes, pattern: Bytes, i: nat, j: nat, chunks: seq<Bytes>)
    requires i <= |value| && j < |pattern| && Splits(value[i..], Tokens(pattern[j..]), chunks) && chunks[0] != []
    requires pattern[j] == STAR
    ensures i < |value| && (FirstToken(pattern[j..]) == AnyPath || value[i] != SLASH)
    ensures Splits(value[i + 1..], Tokens(pattern[j..]), [chunks[0][1..]] + chunks[1..])
  {
    ShorterPiece(value[i..], Tokens(pattern[j..]), chunks);
    assert value[i..][1..] == value[i + 1..];
    assert TokenMatches(FirstToken(pattern[j..]), chunks[0]);
  }

  lemma TakesByte(value: Bytes, pattern: Bytes, i: nat, j: nat, chunks: seq<Bytes>)
    requires i <= |value| && j < |pattern| && Splits(value[i..], Tokens(pattern[j..]), chunks) && pattern[j] != STAR
    ensures i < |value| && (pattern[j] == value[i] || (pattern[j] == QUESTION && value[i] != SLASH))
    ensures Splits(value[i + 1..], Tokens(pattern[j + 1..]), chunks[1..])
  {
    var tokens := Tokens(pattern[j..]);
    assert pattern[j..][1..] == pattern[j + 1..];
    SinglePiece(value[i..], tokens, chunks);
    assert value[i..][1..] == value[i + 1..];
    assert TokenMatches(tokens[0], chunks[0]);
  }

  lemma {:induction false} ChunksGiveFrom(value: Bytes, pattern: Bytes, i: nat, j: nat, chunks: seq<Bytes>)
    requires i <= |value| && j <= |pattern| && Splits(value[i..], Tokens(pattern[j..]), chunks)
    ensures From(value, pattern, i, j)
    decreases |value| - i + |pattern| - j
  {
    if j < |pattern| {
      if pattern[j] != STAR {
        TakesByte(value, pattern, i, j, chunks);
        ChunksGiveFrom(value, pattern, i + 1, j + 1, chunks[1..]);
      } else if chunks[0] == [] {
        SkipsToken(value, pattern, i, j, chunks);
        ChunksGiveFrom(value, pattern, i, j + TokenLength(pattern[j..]), chunks[1..]);
      } else {
        KeepsToken(value, pattern, i, j, chunks);
        ChunksGiveFrom(value, pattern, i + 1, j, [chunks[0][1..]] + chunks[1..]);
      }
    }
  }

  lemma FromIsMatches(value: Bytes, pattern: Bytes)
    ensures From(value, pattern, 0, 0) <==> Matches(value, pattern)
  {
    assert value[0..] == value && pattern[0..] == pattern;
    if From(value, pattern, 0, 0) {
      var chunks := FromGivesChunks(value, pattern, 0, 0);
    }
    if chunks :| Splits(value, Tokens(pattern), chunks) {
      ChunksGiveFrom(value, pattern, 0, 0, chunks);
    }
  }

  // ---- What each part of a pattern stands for ----

  lemma {:induction false} FlattenAppend(a: seq<Bytes>, b: seq<Bytes>)
    ensures Flatten(a + b) == Flatten(a) + Flatten(b)
    decreases |a|
  {
    if a == [] {
      assert a + b == b;
    } else {
      assert (a + b)[0] == a[0] && (a + b)[1..] == a[1..] + b;
      FlattenAppend(a[1..], b);
    }
  }

  lemma {:induction false} TokensAppend(p: Bytes, q: Bytes)
    requires p == [] || p[|p| - 1] != STAR
    ensures Tokens(p + q) == Tokens(p) + Tokens(q)
    decreases |p|
  {
    if p == [] {
      assert p + q == q;
    } else {
      var n := TokenLength(p);
      assert TokenLength(p + q) == n && FirstToken(p + q) == FirstToken(p);
      assert (p + q)[n..] == p[n..] + q;
      TokensAppend(p[n..], q);
    }
  }

  lemma JoinMatches(v: Bytes, w: Bytes, p: Bytes, q: Bytes)
    requires p == [] || p[|p| - 1] != STAR
    requires Matches(v, p) && Matches(w, q)
    ensures Matches(v + w, p + q)
  {
    var a :| Splits(v, Tokens(p), a);
    var b :| Splits(w, Tokens(q), b);
    TokensAppend(p, q);
    FlattenAppend(a, b);
    assert Splits(v + w, Tokens(p + q), a + b);
  }

  lemma SplitMatch(value: Bytes, p: Bytes, q: Bytes) returns (k: nat)
    requires p == [] || p[|p| - 1] != STAR
    requires Matches(value, p + q)
    ensures k <= |value| && Matches(value[..k], p) && Matches(value[k..], q)
  {
    var chunks :| Splits(value, Tokens(p + q), chunks);
    TokensAppend(p, q);
    var n := |Tokens(p)|;
    var a, b := chunks[..n], chunks[n..];
    assert chunks == a + b;
    FlattenAppend(a, b);
    k := |Flatten(a)|;
    assert value[..k] == Flatten(a) && value[k..] == Flatten(b);
    forall i | 0 <= i < |b|
      ensures TokenMatches(Tokens(q)[i], b[i])
    {
      assert TokenMatches(Tokens(p + q)[n + i], chunks[n + i]);
    }
    assert Splits(value[..k], Tokens(p), a) && Splits(value[k..], Tokens(q), b);
  }

  /** A pattern matches part by part, where it is not cut behind a star. */
  lemma MatchesPartByPart(value: Bytes, p: Bytes, q: Bytes)
    requires p == [] || p[|p| - 1] != STAR
    ensures Matches(value, p + q) <==> exists k: nat :: k <= |value| && Matches(value[..k], p) && Matches(value[k..], q)
  {
    if Matches(value, p + q) {
      var k := SplitMatch(value, p, q);
    }
    if k: nat :| k <= |value| && Matches(value[..k], p) && Matches(value[k..], q) {
      JoinMatches(value[..k], value[k..], p, q);
      assert value == value[..k] + value[k..];
    }
  }

  lemma MatchesOneToken(value: Bytes, pattern: Bytes)
    requires pattern != [] && TokenLength(pattern) == |pattern|
    ensures Matches(value, pattern) <==> TokenMatches(FirstToken(pattern), value)
  {
    assert Tokens(pattern) == [FirstToken(pattern)] by {
      assert pattern[|pattern|..] == [];
    }
    if chunks :| Splits(value, Tokens(pattern), chunks) {
      assert chunks == [chunks[0]] && Flatten(chunks) == chunks[0];
    }
    if TokenMatches(FirstToken(pattern), value) {
      assert Flatten([value]) == value;
      assert Splits(value, Tokens(pattern), [value]);
    }
  }

  /** A star stands for any bytes but slashes, two stars, with or without a slash after them, for any bytes at all, a
      question mark for one byte but a slash, and any other byte for itself. */
  lemma WildcardsExactly(value: Bytes, b: byte)
    ensures Matches(value, []) <==> value == []
    ensures Matches(value, [STAR]) <==> SLASH !in value
    ensures Matches(value, [STAR, STAR]) && Matches(value, [STAR, STAR, SLASH])
    ensures Matches(value, [QUESTION]) <==> |value| == 1 && value[0] != SLASH
    ensures b != STAR && b != QUESTION ==> (Matches(value, [b]) <==> value == [b])
  {
    if value == [] {
      assert Splits(value, Tokens([]), []);
    }
    MatchesOneToken(value, [STAR]);
    MatchesOneToken(value, [STAR, STAR]);
    MatchesOneToken(value, [STAR, STAR, SLASH]);
    MatchesOneToken(value, [QUESTION]);
    if b != STAR {
      MatchesOneToken(value, [b]);
    }
  }

  predicate NoWildcards(pattern: Bytes) {
    STAR !in pattern && QUESTION !in pattern
  }

  // A pattern without wildcards is a path that matches itself alone.
  lemma {:induction false} PlainPathMatchesItself(value: Bytes, pattern: Bytes)
    requires NoWildcards(pattern)
    ensures Matches(value, pattern) <==> value == pattern
    decreases |pattern|
  {
    if pattern == [] {
      WildcardsExactly(value, 0);
    } else {
      var first, rest := [pattern[0]], pattern[1..];
      assert pattern == first + rest && pattern[0] in pattern;
      MatchesPartByPart(value, first, rest);
      forall k: nat | k <= |value|
        ensures Matches(value[..k], first) && Matches(value[k..], rest) <==> k == 1 && value == pattern
      {
        WildcardsExactly(value[..k], pattern[0]);
        PlainPathMatchesItself(value[k..], rest);
        assert value == value[..k] + value[k..];
      }
    }
  }

  // ---- Path components ----

  function Slashes(b: Bytes): nat {
    if b == [] then 0 else (if b[0] == SLASH then 1 else 0) + Slashes(b[1..])
  }

  lemma {:induction false} SlashesConcat(a: Bytes, b: Bytes)
    ensures Slashes(a + b) == Slashes(a) + Slashes(b)
    decreases |a|
  {
    if a == [] {
      assert a + b == b;
    } else {
      assert (a + b)[0] == a[0] && (a + b)[1..] == a[1..] + b;
      SlashesConcat(a[1..], b);
    }
  }

  lemma {:induction false} NoSlashes(b: Bytes)
    requires SLASH !in b
    ensures Slashes(b) == 0
    decreases |b|
  {
    if b != [] {
      NoSlashes(b[1..]);
    }
  }

  predicate NoDoubleStar(pattern: Bytes) {
    forall i :: 0 <= i < |pattern| - 1 ==> pattern[i] != STAR || pattern[i + 1] != STAR
  }

  lemma {:induction false} PiecesKeepSlashes(pattern: Bytes, chunks: seq<Bytes>)
    requires NoDoubleStar(pattern) && Splits(Flatten(chunks), Tokens(pattern), chunks)
    ensures Slashes(Flatten(chunks)) == Slashes(pattern)
    decreases |pattern|
  {
    if pattern != [] {
      assert TokenLength(pattern) == 1;
      PiecesKeepSlashes(pattern[1..], chunks[1..]);
      SlashesConcat(chunks[0], Flatten(chunks[1..]));
      assert TokenMatches(FirstToken(pattern), chunks[0]);
      if pattern[0] == STAR {
        NoSlashes(chunks[0]);
      } else {
        assert chunks[0][1..] == [];
      }
    }
  }

  /** Without `**` a pattern never crosses a path component: the value has as many slashes as the
      pattern. */
  lemma MatchKeepsDepth(value: Bytes, pattern: Bytes)
    requires NoDoubleStar(pattern) && Matches(value, pattern)
    ensures Slashes(value) == Slashes(pattern)
  {
    var chunks :| Splits(value, Tokens(pattern), chunks);
    PiecesKeepSlashes(pattern, chunks);
  }
}
