/** Slash-separated paths: strtok, the component prefixes that a create inserts, ancestors. */
module PathNames {
  import opened Words

  /** The length of the longest prefix of s without the delimiter. */
  function Run(s: Word, d: Letter): (n: nat)
    ensures n <= |s| && d !in s[..n] && (n < |s| ==> s[n] == d)
  {
    if s == [] || s[0] == d then 0 else
      assert forall n: nat | n <= |s[1..]| :: s[..n + 1] == [s[0]] + s[1..][..n];
      1 + Run(s[1..], d)
  }

  /** What repeated strtok(s, d) yields: the maximal non-empty runs without the delimiter. */
  function Tokens(s: Word, d: Letter): seq<Word>
    decreases |s|
  {
    if s == [] then []
    else if s[0] == d then Tokens(s[1..], d)
    else [s[..Run(s, d)]] + Tokens(s[Run(s, d)..], d)
  }

  /** strtok: skip delimiters, cut a token, step over the delimiter behind it. */
  method Strtok(s: Word, d: Letter) returns (token: Word, rest: Word)
    ensures token == [] <==> Tokens(s, d) == []
    ensures token != [] ==> Tokens(s, d) == [token] + Tokens(rest, d) && |rest| < |s|
  {
    var i := 0;
    while i < |s| && s[i] == d
      invariant 0 <= i <= |s| && Tokens(s[i..], d) == Tokens(s, d)
    {
      assert s[i..][1..] == s[i + 1..];
      i := i + 1;
    }
    var j := i;
    while j < |s| && s[j] != d
      invariant i <= j <= |s| && Run(s[i..], d) == j - i + Run(s[j..], d)
    {
      assert s[j..][1..] == s[j + 1..];
      j := j + 1;
    }
    token := s[i..j];
    rest := if j < |s| then s[j + 1..] else [];
    if i < |s| {
      assert s[i..][..j - i] == token && s[i..][j - i..] == s[j..];
      if j < |s| {
        assert s[j..][1..] == rest;
      }
    }
  }

  /** The paths that a create inserts: acc extended by one token after the other. */
  function PathsFrom(acc: Word, tokens: seq<Word>): seq<Word>
    decreases tokens
  {
    if tokens == [] then []
    else [acc + tokens[0]] + PathsFrom(acc + tokens[0] + [SLASH], tokens[1..])
  }

  function ComponentPaths(path: Word): seq<Word> {
    PathsFrom([], Tokens(path, SLASH))
  }

  predicate Ancestor(a: Word, w: Word) {
    a != [] && a + [SLASH] <= w
  }

  /** A component prefix of w: w itself or one of its ancestors. */
  predicate Component(a: Word, w: Word) {
    a != [] && (a == w || Ancestor(a, w))
  }

  /** With a slash behind each, neither path is a prefix of the other. */
  predicate Unrelated(a: Word, b: Word) {
    !(a + [SLASH] <= b + [SLASH]) && !(b + [SLASH] <= a + [SLASH])
  }

  /** No leading, trailing or doubled slash, and not empty. */
  predicate Normal(w: Word) {
    && w != [] && w[0] != SLASH && w[|w| - 1] != SLASH
    && forall i | 0 <= i < |w| - 1 :: !(w[i] == SLASH && w[i + 1] == SLASH)
  }

  ghost predicate Name(t: Word) {
    t != [] && SLASH !in t
  }

  lemma {:induction false} TokensAreNames(s: Word)
    ensures forall t | t in Tokens(s, SLASH) :: Name(t)
    decreases |s|
  {
    if s == [] {
    } else if s[0] == SLASH {
      TokensAreNames(s[1..]);
    } else {
      TokensAreNames(s[Run(s, SLASH)..]);
    }
  }

  /** Where the slashes of acc + t can be when t has none. */
  lemma AncestorOfAppend(a: Word, acc: Word, t: Word)
    requires SLASH !in t
    ensures Ancestor(a, acc + t) <==> Ancestor(a, acc)
  {
    var w := acc + t;
    if |acc| <= |a| < |w| {
      assert w[|a|] == t[|a| - |acc|];
    } else if |a| < |acc| {
      assert w[..|a| + 1] == acc[..|a| + 1];
    }
  }

  lemma AncestorOfSlash(a: Word, p: Word)
    ensures Ancestor(a, p + [SLASH]) <==> Component(a, p) && a != []
  {
    var w := p + [SLASH];
    if |a| < |p| {
      assert w[..|a| + 1] == p[..|a| + 1];
    } else if Ancestor(a, w) {
      assert a == w[..|a|] == p;
    }
  }

  /** A path is inserted exactly when it is a component prefix of the rebuilt path that is not
      already among the ancestors of what was there before. */
  lemma {:induction false} PathsFromAre(acc: Word, tokens: seq<Word>, x: Word)
    requires forall t | t in tokens :: Name(t)
    requires tokens != []
    ensures var paths := PathsFrom(acc, tokens);
      |paths| == |tokens| && acc <= paths[|paths| - 1]
      && (x in paths <==> Component(x, paths[|paths| - 1]) && !Ancestor(x, acc))
    decreases tokens
  {
    assert Name(tokens[0]);
    var p := acc + tokens[0];
    AncestorOfAppend(x, acc, tokens[0]);
    AncestorShorter(p, acc);
    if |tokens| > 1 {
      var rest := PathsFrom(p + [SLASH], tokens[1..]);
      PathsFromAre(p + [SLASH], tokens[1..], x);
      AncestorOfSlash(x, p);
      var last := rest[|rest| - 1];
      if x == p {
        assert Ancestor(p, last);
      } else if Ancestor(x, acc) {
        PrefixTrans(x + [SLASH], acc, last);
      }
    } else {
      assert PathsFrom(acc, tokens) == [p];
    }
  }

  lemma AncestorShorter(p: Word, acc: Word)
    requires |acc| <= |p|
    ensures !Ancestor(p, acc)
  {}

  /** Whatever the client sent, the inserted paths contain all ancestors of each of them. */
  lemma ComponentPathsClosed(path: Word, x: Word, a: Word)
    requires x in ComponentPaths(path) && Ancestor(a, x)
    ensures a in ComponentPaths(path)
  {
    var tokens := Tokens(path, SLASH);
    TokensAreNames(path);
    PathsFromAre([], tokens, x);
    PathsFromAre([], tokens, a);
    var paths := PathsFrom([], tokens);
    PrefixTrans(a + [SLASH], x, paths[|paths| - 1]);
  }

  // ---------- normal paths are rebuilt as they are ----------

  lemma {:induction false} RebuiltIs(acc: Word, s: Word)
    requires Normal(s)
    ensures Tokens(s, SLASH) != []
    ensures var paths := PathsFrom(acc, Tokens(s, SLASH));
      |paths| == |Tokens(s, SLASH)| && paths[|paths| - 1] == acc + s
    decreases |s|
  {
    var n := Run(s, SLASH);
    var rest := s[n..];
    if n == |s| {
      assert s[..n] == s && rest == [];
      assert Tokens(s, SLASH) == [s];
      assert PathsFrom(acc, [s]) == [acc + s];
    } else {
      assert s[n] == SLASH && n + 1 < |s| && s[n + 1] != SLASH;
      var tail := s[n + 1..];
      assert rest[1..] == tail;
      assert Tokens(s, SLASH) == [s[..n]] + Tokens(tail, SLASH);
      assert Normal(tail) by {
        assert tail[|tail| - 1] == s[|s| - 1];
        forall i | 0 <= i < |tail| - 1 ensures !(tail[i] == SLASH && tail[i + 1] == SLASH) {
          assert tail[i] == s[n + 1 + i] && tail[i + 1] == s[n + 1 + i + 1];
        }
      }
      var next := acc + s[..n] + [SLASH];
      RebuiltIs(next, tail);
      assert Tokens(s, SLASH)[1..] == Tokens(tail, SLASH);
      assert next + tail == acc + s;
    }
  }

  /** For a normal path the inserted paths are exactly its component prefixes. */
  lemma ComponentPathsOfNormal(path: Word, x: Word)
    requires Normal(path)
    ensures x in ComponentPaths(path) <==> Component(x, path)
  {
    RebuiltIs([], path);
    TokensAreNames(path);
    PathsFromAre([], Tokens(path, SLASH), x);
    assert [] + path == path;
  }

  /** A single component is inserted once. */
  lemma ComponentPathsOfName(p: Word)
    requires Name(p)
    ensures Tokens(p, SLASH) == [p] && ComponentPaths(p) == [p]
  {
    var n := Run(p, SLASH);
    if n < |p| {
      assert false;
    }
    assert p[..n] == p && p[n..] == [];
    assert [p][1..] == [] && [] + p == p;
    assert PathsFrom(p + [SLASH], []) == [];
    assert PathsFrom([], [p]) == [[] + p] + PathsFrom([] + p + [SLASH], [p][1..]);
  }

  /** A path of two components is inserted behind its directory. */
  lemma ComponentPathsOfTwo(q: Word, r: Word)
    requires Name(q) && Name(r)
    ensures ComponentPaths(q + [SLASH] + r) == [q, q + [SLASH] + r]
  {
    var z, acc := q + [SLASH] + r, q + [SLASH];
    FirstToken(q, r);
    ComponentPathsOfName(r);
    assert Tokens(z, SLASH) == [q, r] && [q, r][1..] == [r] && [] + q == q;
    assert PathsFrom(acc + r + [SLASH], []) == [];
    assert PathsFrom(acc, [r]) == [acc + r];
    assert PathsFrom([], [q, r]) == [q] + PathsFrom(acc, [r]);
  }

  lemma {:induction false} RunIs(q: Word, r: Word)
    requires SLASH !in q && r != [] && r[0] == SLASH
    ensures Run(q + r, SLASH) == |q|
    decreases q
  {
    if q == [] {
      assert q + r == r;
    } else {
      assert (q + r)[1..] == q[1..] + r;
      RunIs(q[1..], r);
    }
  }

  lemma FirstToken(q: Word, r: Word)
    requires Name(q)
    ensures Tokens(q + [SLASH] + r, SLASH) == [q] + Tokens(r, SLASH)
  {
    var z := q + [SLASH] + r;
    RunIs(q, [SLASH] + r);
    assert z == q + ([SLASH] + r);
    assert z[..|q|] == q && z[|q|..] == [SLASH] + r && ([SLASH] + r)[1..] == r;
  }

  lemma NameFacts(p: Word, x: Word)
    requires Name(p)
    ensures Normal(p) && !Ancestor(x, p)
  {
    if |x| < |p| {
      assert p[|x|] in p;
    }
    assert p[0] in p && p[|p| - 1] in p;
    forall i | 0 <= i < |p| ensures p[i] != SLASH {
      assert p[i] in p;
    }
  }
}
