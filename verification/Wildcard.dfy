/** The URL patterns of `Fetch.enable`: what a pattern means, and the matcher
    that remembers only the last star. */
module Wildcard {
  import opened Options

  datatype Token = Run | One | Literal(c: char)

  /** A pattern's tokens: the two wildcards, and single characters, plain or
      escaped. */
  function Tokens(p: string): (r: seq<Token>)
    ensures |r| <= |p|
  {
    if p == "" then []
    else if p[0] == '*' then [Run] + Tokens(p[1..])
    else if p[0] == '\\' && |p| > 1 then [Literal(p[1])] + Tokens(p[2..])
    else if p[0] == '?' then [One] + Tokens(p[1..])
    else [Literal(p[0])] + Tokens(p[1..])
  }

  predicate Covers(k: Token, piece: string) {
    match k
    case Run => true
    case One => |piece| == 1
    case Literal(c) => piece == [c]
  }

  function Join(pieces: seq<string>): string {
    if pieces == [] then "" else pieces[0] + Join(pieces[1..])
  }

  ghost predicate Fits(tokens: seq<Token>, pieces: seq<string>) {
    |pieces| == |tokens| && forall i :: 0 <= i < |tokens| ==> Covers(tokens[i], pieces[i])
  }

  /** A text matches when it can be cut into pieces, one for each token. */
  ghost predicate Means(pattern: string, text: string) {
    exists pieces :: Fits(Tokens(pattern), pieces) && Join(pieces) == text
  }

  // ---- the same by recursion, from a place in the pattern and one in the text -----------

  function Step(p: string, i: nat): (n: nat)
    requires i < |p|
    ensures n > 0 && i + n <= |p|
  {
    if p[i] == '\\' && i + 1 < |p| then 2 else 1
  }

  /** A character the token at `i`, no star, stands for. */
  predicate Accepts(p: string, i: nat, c: char)
    requires i < |p|
  {
    if p[i] == '\\' && i + 1 < |p| then c == p[i + 1] else p[i] == '?' || c == p[i]
  }

  ghost predicate From(p: string, i: nat, t: string, j: nat)
    requires i <= |p| && j <= |t|
    decreases |p| - i, 0
  {
    if i == |p| then j == |t|
    else if p[i] == '*' then FromLater(p, i + 1, t, j)
    else j < |t| && Accepts(p, i, t[j]) && From(p, i + Step(p, i), t, j + 1)
  }

  ghost predicate FromLater(p: string, i: nat, t: string, j: nat)
    requires i <= |p| && j <= |t|
    decreases |p| - i, 1
  {
    exists k :: j <= k <= |t| && From(p, i, t, k)
  }

  lemma Later(p: string, i: nat, t: string, j: nat) returns (k: nat)
    requires i <= |p| && j <= |t| && FromLater(p, i, t, j)
    ensures j <= k <= |t| && From(p, i, t, k)
  {
    k :| j <= k <= |t| && From(p, i, t, k);
  }

  lemma {:induction false} FromHasPieces(p: string, i: nat, t: string, j: nat) returns (pieces: seq<string>)
    requires i <= |p| && j <= |t| && From(p, i, t, j)
    ensures Fits(Tokens(p[i..]), pieces) && Join(pieces) == t[j..]
    decreases |p| - i
  {
    if i == |p| {
      pieces := [];
    } else if p[i] == '*' {
      var k := Later(p, i + 1, t, j);
      var rest := FromHasPieces(p, i + 1, t, k);
      pieces := [t[j..k]] + rest;
      TokensFrom(p, i);
    } else {
      var rest := FromHasPieces(p, i + Step(p, i), t, j + 1);
      pieces := [[t[j]]] + rest;
      TokensFrom(p, i);
    }
  }

  lemma TokensFrom(p: string, i: nat)
    requires i < |p|
    ensures Tokens(p[i..]) == [TokenAt(p, i)] + Tokens(p[i + if p[i] == '*' then 1 else Step(p, i)..])
  {
    assert p[i..][1..] == p[i + 1..];
    if |p| - i > 1 {
      assert p[i..][2..] == p[i + 2..];
    }
  }

  function TokenAt(p: string, i: nat): Token
    requires i < |p|
  {
    if p[i] == '*' then Run
    else if p[i] == '\\' && i + 1 < |p| then Literal(p[i + 1])
    else if p[i] == '?' then One
    else Literal(p[i])
  }

  lemma {:induction false} PiecesFrom(p: string, i: nat, t: string, j: nat, pieces: seq<string>)
    requires i <= |p| && j <= |t| && Fits(Tokens(p[i..]), pieces) && Join(pieces) == t[j..]
    ensures From(p, i, t, j)
    decreases |p| - i
  {
    if i < |p| {
      TokensFrom(p, i);
      var k := j + |pieces[0]|;
      assert t[j..] == pieces[0] + Join(pieces[1..]);
      assert t[k..] == t[j..][|pieces[0]|..] == Join(pieces[1..]);
      if p[i] == '*' {
        PiecesFrom(p, i + 1, t, k, pieces[1..]);
      } else {
        assert Covers(TokenAt(p, i), pieces[0]);
        assert t[j] == t[j..][0] == pieces[0][0];
        PiecesFrom(p, i + Step(p, i), t, j + 1, pieces[1..]);
      }
    }
  }

  lemma FromIsMeaning(p: string, t: string)
    ensures From(p, 0, t, 0) <==> Means(p, t)
  {
    assert p[0..] == p && t[0..] == t;
    if From(p, 0, t, 0) {
      var pieces := FromHasPieces(p, 0, t, 0);
    }
    if pieces :| Fits(Tokens(p), pieces) && Join(pieces) == t {
      PiecesFrom(p, 0, t, 0, pieces);
    }
  }

  // ---- the matcher -----------------------------------------------------------------------

  /** What holds of the attempt since the last star: it stands for the attempt
      from that star, and from any later start it would go on the same way. */
  ghost predicate Attempt(p: string, s: nat, t: string, mark: nat, i: nat, j: nat)
    requires s < i <= |p| && mark <= j <= |t|
  {
    (From(p, s + 1, t, mark) <==> From(p, i, t, j)) &&
    forall k {:trigger From(p, s + 1, t, k)} :: mark <= k <= |t| && From(p, s + 1, t, k) ==>
      k + (j - mark) <= |t| && From(p, i, t, k + (j - mark))
  }

  /** The first place where the part before a star fits is as good as any: what
      comes later the new star can swallow. */
  lemma EarliestIsEnough(p: string, s: nat, t: string, mark: nat, i: nat, j: nat)
    requires s < i < |p| && mark <= j <= |t| && p[s] == '*' && p[i] == '*' && Attempt(p, s, t, mark, i, j)
    ensures From(p, s, t, mark) <==> From(p, i, t, j)
  {
    if From(p, s, t, mark) {
      var k := Later(p, s + 1, t, mark);
      var l := Later(p, i + 1, t, k + (j - mark));
      assert FromLater(p, i + 1, t, j);
    }
    if From(p, i, t, j) {
      assert From(p, s + 1, t, mark);
    }
  }

  /** One more character matched on both ways of going on. */
  lemma StepKeepsAttempt(p: string, s: nat, t: string, mark: nat, i: nat, j: nat)
    requires s < i < |p| && mark <= j < |t| && p[i] != '*' && Accepts(p, i, t[j]) && Attempt(p, s, t, mark, i, j)
    ensures Attempt(p, s, t, mark, i + Step(p, i), j + 1)
  {
  }

  /** A failed attempt moves the start on. */
  lemma RetryIsEnough(p: string, s: nat, t: string, mark: nat, i: nat, j: nat)
    requires s < i <= |p| && mark <= j < |t| && p[s] == '*' && Attempt(p, s, t, mark, i, j) && !From(p, i, t, j)
    ensures From(p, s, t, mark) <==> From(p, s, t, mark + 1)
  {
  }

  /** With the text used up, only this attempt can still succeed. */
  lemma LastAttempt(p: string, s: nat, t: string, mark: nat, i: nat)
    requires s < i <= |p| && mark <= |t| && p[s] == '*' && Attempt(p, s, t, mark, i, |t|)
    ensures From(p, s, t, mark) <==> From(p, i, t, |t|)
  {
    if From(p, s, t, mark) {
      var k := Later(p, s + 1, t, mark);
    }
  }

  /** `wildcard_match` */
  method WildcardMatch(p: string, t: string) returns (matches: bool)
    ensures matches <==> Means(p, t)
  {
    FromIsMeaning(p, t);
    var i: nat, j: nat := 0, 0;
    var star: Option<nat>, mark: nat := None, 0;
    while j < |t|
      invariant i <= |p| && mark <= j <= |t|
      invariant star.None? ==> (From(p, 0, t, 0) <==> From(p, i, t, j))
      invariant star.Some? ==> star.value < i && p[star.value] == '*'
      invariant star.Some? ==> (From(p, 0, t, 0) <==> From(p, star.value, t, mark))
      invariant star.Some? ==> Attempt(p, star.value, t, mark, i, j)
      decreases |p| - (if star.None? then -1 else star.value), |t| - mark, |t| - j
    {
      if i < |p| && p[i] == '*' {
        if star.Some? {
          EarliestIsEnough(p, star.value, t, mark, i, j);
        }
        star := Some(i);
        i := i + 1;
        mark := j;
        continue;
      }
      if i < |p| {
        var literal, step := LiteralAt(p, i);
        if literal.None? || literal.value == t[j] {
          if star.Some? {
            StepKeepsAttempt(p, star.value, t, mark, i, j);
          }
          i := i + step;
          j := j + 1;
          continue;
        }
      }
      if star.None? {
        return false;
      }
      RetryIsEnough(p, star.value, t, mark, i, j);
      i := star.value + 1;
      mark := mark + 1;
      j := mark;
    }
    if star.Some? {
      LastAttempt(p, star.value, t, mark, i);
    }
    while i < |p| && p[i] == '*'
      invariant i <= |p|
      invariant From(p, 0, t, 0) <==> From(p, i, t, |t|)
    {
      i := i + 1;
    }
    matches := i == |p|;
  }

  /** The literal at a place, none for `?`, and the length of its token. */
  method LiteralAt(p: string, i: nat) returns (literal: Option<char>, step: nat)
    requires i < |p|
    ensures step == Step(p, i) && forall c :: Accepts(p, i, c) <==> literal.None? || literal.value == c
  {
    if p[i] == '\\' && i + 1 < |p| {
      literal, step := Some(p[i + 1]), 2;
    } else if p[i] == '?' {
      literal, step := None, 1;
    } else {
      literal, step := Some(p[i]), 1;
    }
  }

  // ---- what patterns say -------------------------------------------------------------------

  /** A text with every special character escaped. */
  function Escaped(s: string): string {
    if s == "" then ""
    else (if s[0] in {'*', '?', '\\'} then ['\\', s[0]] else [s[0]]) + Escaped(s[1..])
  }

  lemma {:induction false} EscapedTokens(s: string)
    ensures Tokens(Escaped(s)) == seq(|s|, i requires 0 <= i < |s| => Literal(s[i]))
  {
    if s != "" {
      EscapedTokens(s[1..]);
      var e := Escaped(s);
      if s[0] in {'*', '?', '\\'} {
        assert e[2..] == Escaped(s[1..]);
      } else {
        assert e[1..] == Escaped(s[1..]);
      }
    }
  }

  lemma {:induction false} LiteralsMean(s: string, pieces: seq<string>)
    requires Fits(seq(|s|, i requires 0 <= i < |s| => Literal(s[i])), pieces)
    ensures Join(pieces) == s
  {
    if s != "" {
      var r := s[1..];
      LiteralsMean(r, pieces[1..]);
      assert pieces[0] == [s[0]];
    }
  }

  /** An escaped text matches itself and nothing else. */
  lemma EscapedMeansItself(s: string, t: string)
    ensures Means(Escaped(s), t) <==> s == t
  {
    EscapedTokens(s);
    var pieces := seq(|s|, i requires 0 <= i < |s| => [s[i]]);
    LiteralsMean(s, pieces);
    if more :| Fits(Tokens(Escaped(s)), more) && Join(more) == t {
      LiteralsMean(s, more);
    }
  }

  /** A first token takes a piece off the text, and the rest of the pattern means the
      rest. */
  lemma MeansStep(k: Token, p: string, q: string, t: string)
    requires Tokens(p) == [k] + Tokens(q)
    ensures Means(p, t) <==> exists j :: 0 <= j <= |t| && Covers(k, t[..j]) && Means(q, t[j..])
  {
    hide Covers, Tokens;
    if pieces :| Fits(Tokens(p), pieces) && Join(pieces) == t {
      var j := |pieces[0]|;
      assert t == pieces[0] + Join(pieces[1..]);
      assert t[..j] == pieces[0] && t[j..] == Join(pieces[1..]);
      assert Fits(Tokens(q), pieces[1..]);
    }
    if j :| 0 <= j <= |t| && Covers(k, t[..j]) && Means(q, t[j..]) {
      var pieces :| Fits(Tokens(q), pieces) && Join(pieces) == t[j..];
      var more := [t[..j]] + pieces;
      assert more[1..] == pieces && t[..j] + t[j..] == t;
      assert Fits(Tokens(p), more) && Join(more) == t;
    }
  }

  /** The empty pattern means the empty text. */
  lemma MeansEmpty(t: string)
    ensures Means("", t) <==> t == ""
  {
    assert Fits(Tokens(""), []) && Join([]) == "";
  }

  /** A star means any run of characters, and then the rest. */
  lemma MeansStar(p: string, t: string)
    ensures Means("*" + p, t) <==> exists j :: 0 <= j <= |t| && Means(p, t[j..])
  {
    hide Means;
    var r := "*" + p;
    assert r[1..] == p;
    MeansStep(Run, r, p, t);
    forall j | 0 <= j <= |t|
      ensures Covers(Run, t[..j])
    {
    }
  }

  /** A question mark means exactly one character. */
  lemma MeansOneCharacter(p: string, t: string)
    ensures Means("?" + p, t) <==> t != "" && Means(p, t[1..])
  {
    hide Means;
    var r := "?" + p;
    assert r[1..] == p;
    MeansStep(One, r, p, t);
    assert t != "" ==> Covers(One, t[..1]);
  }

  /** Any other character means itself, and so does one after a backslash. */
  lemma MeansLiteral(c: char, p: string, t: string)
    ensures c !in {'*', '?', '\\'} ==> (Means([c] + p, t) <==> t != "" && t[0] == c && Means(p, t[1..]))
    ensures Means(['\\', c] + p, t) <==> t != "" && t[0] == c && Means(p, t[1..])
  {
    hide Means;
    var plain, escaped := [c] + p, ['\\', c] + p;
    assert plain[1..] == p && escaped[2..] == p;
    if c !in {'*', '?', '\\'} {
      MeansStep(Literal(c), plain, p, t);
    }
    MeansStep(Literal(c), escaped, p, t);
    assert t != "" && t[0] == c ==> t[..1] == [c];
  }

  /** A backslash with nothing after it means itself. */
  lemma MeansLastBackslash(t: string)
    ensures Means("\\", t) <==> t == "\\"
  {
    hide Means;
    var p := "\\";
    assert p[1..] == "" && Tokens(p) == [Literal('\\')] + Tokens("");
    MeansStep(Literal('\\'), p, "", t);
    forall j | 0 <= j <= |t|
      ensures Means("", t[j..]) <==> j == |t|
    {
      MeansEmpty(t[j..]);
    }
    assert t[..|t|] == t;
  }

  // ---- which requests pause -----------------------------------------------------------------

  /** An entry of the `patterns` parameter; what is missing has a default. */
  datatype Param = Param(urlPattern: Option<string>, resourceType: Option<string>, requestStage: Option<string>)

  datatype Pattern = Pattern(url: string, kind: Option<string>)

  predicate AtRequest(p: Param) {
    p.requestStage.None? || p.requestStage.value == "Request"
  }

  function PatternOf(p: Param): Pattern {
    Pattern(if p.urlPattern.None? then "*" else p.urlPattern.value, p.resourceType)
  }

  /** `from_params`: the entries for responses are left out. */
  method FromParams(params: Option<seq<Param>>) returns (patterns: Option<seq<Pattern>>)
    ensures patterns.None? <==> params.None?
    ensures params.Some? ==>
              forall x :: x in patterns.value <==>
                          exists p :: p in params.value && (p.requestStage.None? || p.requestStage == Some("Request")) &&
                                      x.url == (if p.urlPattern.None? then "*" else p.urlPattern.value) &&
                                      x.kind == p.resourceType
  {
    if params.None? {
      return None;
    }
    var out := [];
    for i := 0 to |params.value|
      invariant forall x :: x in out <==>
                            exists k :: 0 <= k < i && AtRequest(params.value[k]) && PatternOf(params.value[k]) == x
    {
      if AtRequest(params.value[i]) {
        out := out + [PatternOf(params.value[i])];
      }
    }
    patterns := Some(out);
    forall x
      ensures x in out <==>
              exists p :: p in params.value && (p.requestStage.None? || p.requestStage == Some("Request")) &&
                          x.url == (if p.urlPattern.None? then "*" else p.urlPattern.value) && x.kind == p.resourceType
    {
      if p :| p in params.value && (p.requestStage.None? || p.requestStage == Some("Request")) &&
              x.url == (if p.urlPattern.None? then "*" else p.urlPattern.value) && x.kind == p.resourceType {
        var k :| 0 <= k < |params.value| && params.value[k] == p;
        assert PatternOf(params.value[k]) == x;
      }
    }
  }

  /** `FetchPatterns::pauses`: every request without patterns, and otherwise
      those some pattern means. */
  method Pauses(patterns: Option<seq<Pattern>>, url: string, resourceType: string) returns (pauses: bool)
    ensures pauses <==>
            patterns.None? ||
            exists x :: x in patterns.value && (x.kind.None? || x.kind.value == resourceType) && Means(x.url, url)
  {
    if patterns.None? {
      return true;
    }
    for i := 0 to |patterns.value|
      invariant forall k :: 0 <= k < i ==>
        var x := patterns.value[k];
        !((x.kind.None? || x.kind.value == resourceType) && Means(x.url, url))
    {
      var x := patterns.value[i];
      if x.kind.None? || x.kind.value == resourceType {
        var m := WildcardMatch(x.url, url);
        if m {
          return true;
        }
      }
    }
    return false;
  }

  /** A pattern with the default URL and no type pauses everything. */
  lemma DefaultPausesAll(url: string)
    ensures Means("*", url)
  {
    assert Tokens("*") == [Run];
    assert Join([url]) == url + Join([]) == url;
    assert Fits([Run], [url]);
  }
}
