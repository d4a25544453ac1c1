/** In which order a search lists the servers, and which server a listed path is collected with, told from the
    history of insertions and deletions alone. */
module SearchOrder {
  import opened Words
  import opened TrieModel
  import opened TrieReading
  import opened NamespaceModel
  import opened NamingTrie
  import opened SearchHistory
  import TrieWalk
  import opened PathNames
  import Namespace
  import NamespaceRuns

  /** The ports given to insertions of q among the events k to n, in the order in which they were given. */
  ghost function Gifts(es: seq<Event>, k: nat, n: nat, q: Word): seq<int>
    requires k <= n <= |es|
    decreases n
  {
    if k == n then []
    else Gifts(es, k, n - 1, q) + GiftsOf(es[n - 1], q)
  }

  ghost function GiftsOf(e: Event, q: Word): seq<int> {
    if e.Ins? && e.w == q then [e.a, e.b, e.c] else []
  }

  /** Each value where it stands first. */
  ghost function Firsts(s: seq<int>): seq<int> {
    if s == [] then []
    else
      var fewer, x := Firsts(s[..|s| - 1]), s[|s| - 1];
      if x in fewer then fewer else fewer + [x]
  }

  lemma FirstsSnoc(s: seq<int>, x: int)
    ensures Firsts(s + [x]) == if x in Firsts(s) then Firsts(s) else Firsts(s) + [x]
  {
    assert (s + [x])[..|s|] == s;
  }

  lemma {:induction false} FirstsSame(s: seq<int>, x: int)
    ensures x in Firsts(s) <==> x in s
  {
    if s != [] {
      FirstsSame(s[..|s| - 1], x);
    }
  }

  /** x stands at index p of s for the first time. */
  ghost predicate FirstAt(s: seq<int>, p: nat, x: int) {
    p < |s| && s[p] == x && x !in s[..p]
  }

  /** They keep their order. */
  lemma {:induction false} FirstsInOrder(s: seq<int>, i: nat, j: nat, p: nat, r: nat)
    requires i < j < |Firsts(s)| && FirstAt(s, p, Firsts(s)[i]) && FirstAt(s, r, Firsts(s)[j])
    ensures p < r
  {
    var n := |s| - 1;
    var fewer, x := Firsts(s[..n]), s[n];
    if j < |fewer| {
      FirstsSame(s[..n], fewer[i]);
      FirstsSame(s[..n], fewer[j]);
      assert s[..n][..p] == s[..p] && s[..n][..r] == s[..r];
      FirstsInOrder(s[..n], i, j, p, r);
    } else {
      FirstsSame(s[..n], x);
      FirstsSame(s[..n], fewer[i]);
    }
  }

  // ---------- the list that a search finds ----------

  lemma ReversedAdd(ports: seq<int>, s: seq<int>, x: int)
    requires Reversed(ports) == Firsts(s)
    ensures Reversed(AddPort(ports, x)) == Firsts(s + [x])
  {
    ReversedSame(ports, x);
    FirstsSnoc(s, x);
  }

  lemma ReversedAdds(ports: seq<int>, s: seq<int>, a: int, b: int, c: int)
    requires Reversed(ports) == Firsts(s)
    ensures Reversed(AddPorts(ports, a, b, c)) == Firsts(s + [a, b, c])
  {
    ReversedAdd(ports, s, a);
    ReversedAdd(AddPort(ports, a), s + [a], b);
    ReversedAdd(AddPort(AddPort(ports, a), b), s + [a] + [b], c);
    assert s + [a] + [b] + [c] == s + [a, b, c];
  }

  lemma StepList(t: Trie, m: Bag, e: Event, t': Trie, m': Bag, q: Word, s: seq<int>)
    requires Step(t, m, e, t', m') && q in t' && Reversed(At(t, q).ports) == Firsts(s)
    ensures Reversed(t'[q].ports) == Firsts(s + GiftsOf(e, q))
  {
    if e.Ins? && e.w == q {
      InPrefixes(q, e.w);
      ReversedAdds(At(t, q).ports, s, e.a, e.b, e.c);
    } else {
      if e.Ins? {
        InPrefixes(q, e.w);
      }
      assert s + [] == s;
    }
  }

  /** The list that a search finds holds the ports in the order in which they were first given since the node was
      last created. */
  lemma {:induction false} FoundIs(ts: seq<Trie>, ms: seq<Bag>, es: seq<Event>, n: nat, q: Word)
    requires Trace(ts, ms, es) && n <= |es| && q in ts[n]
    ensures Reversed(ts[n][q].ports) == Firsts(Gifts(es, Since(ms, n, q), n, q))
  {
    if n != 0 {
      NodeStep(ts, ms, es, n - 1, q, 0);
      if q in ts[n - 1] {
        FoundIs(ts, ms, es, n - 1, q);
      }
      assert StepAt(ts, ms, es, n - 1);
      StepList(ts[n - 1], ms[n - 1], es[n - 1], ts[n], ms[n], q, Gifts(es, Since(ms, n, q), n - 1, q));
    }
  }

  /** Of two ports that a search lists, the one in front was given first. */
  lemma FoundInOrder(ts: seq<Trie>, ms: seq<Bag>, es: seq<Event>, q: Word, i: nat, j: nat, p: nat, r: nat)
    requires Trace(ts, ms, es) && i < j < |FoundPorts(ts[|es|], q)|
    requires var s, found := Gifts(es, Since(ms, |es|, q), |es|, q), FoundPorts(ts[|es|], q);
      FirstAt(s, p, found[i]) && FirstAt(s, r, found[j])
    ensures p < r
  {
    FoundIs(ts, ms, es, |es|, q);
    FirstsInOrder(Gifts(es, Since(ms, |es|, q), |es|, q), i, j, p, r);
  }

  // ---------- the server that is picked ----------

  /** The first element that is not -1, if there is one. */
  lemma {:induction false} FirstKnownIs(s: seq<int>, k: nat)
    requires k <= |s| && (forall j | 0 <= j < k :: s[j] == -1) && (k < |s| ==> s[k] != -1)
    ensures FirstKnown(s) == if k < |s| then s[k] else -1
    decreases |s|
  {
    if k > 0 {
      FirstKnownIs(s[1..], k - 1);
    }
  }

  lemma {:induction false} FirstKnownSnoc(s: seq<int>, x: int)
    ensures FirstKnown(s + [x]) == if FirstKnown(s) != -1 then FirstKnown(s) else x
  {
    if s == [] {
      assert [x][1..] == [];
    } else {
      assert (s + [x])[1..] == s[1..] + [x];
      FirstKnownSnoc(s[1..], x);
    }
  }

  lemma {:induction false} FirstKnownOfFirsts(s: seq<int>)
    ensures FirstKnown(Firsts(s)) == FirstKnown(s)
  {
    if s != [] {
      var fewer, x := s[..|s| - 1], s[|s| - 1];
      FirstKnownOfFirsts(fewer);
      FirstKnownSnoc(fewer, x);
      FirstKnownSnoc(Firsts(fewer), x);
      assert s == fewer + [x];
      if x in Firsts(fewer) && x != -1 {
        KnownInside(Firsts(fewer), x);
      }
    }
  }

  lemma {:induction false} KnownInside(s: seq<int>, x: int)
    requires x in s && x != -1
    ensures FirstKnown(s) != -1
  {
    if s[0] == -1 {
      KnownInside(s[1..], x);
    }
  }

  /** So a search that is not answered by the cache leads to the server that was given first, of those that are
      not -1, since the node was last created. */
  lemma PickedIsFirstGiven(ts: seq<Trie>, ms: seq<Bag>, es: seq<Event>, q: Word, k: nat)
    requires Trace(ts, ms, es) && q in ts[|es|]
    requires var s := Gifts(es, Since(ms, |es|, q), |es|, q);
      k < |s| && s[k] != -1 && forall j | 0 <= j < k :: s[j] == -1
    ensures FirstKnown(FoundPorts(ts[|es|], q)) == Gifts(es, Since(ms, |es|, q), |es|, q)[k]
  {
    var s := Gifts(es, Since(ms, |es|, q), |es|, q);
    FoundIs(ts, ms, es, |es|, q);
    FirstKnownOfFirsts(s);
    FirstKnownIs(s, k);
  }

  // ---------- the server of a collected path ----------

  /** From index p on nothing in s is new any more. */
  ghost predicate NothingNew(s: seq<int>, p: nat) {
    forall r | p < r < |s| :: s[r] in s[..r]
  }

  lemma {:induction false} LastNew(s: seq<int>) returns (p: nat)
    requires s != []
    ensures Firsts(s) != [] && FirstAt(s, p, Firsts(s)[|Firsts(s)| - 1]) && NothingNew(s, p)
    decreases |s|
  {
    var n := |s| - 1;
    FirstsSame(s[..n], s[n]);
    if s[n] in s[..n] {
      p := LastNew(s[..n]);
      NothingNewSnoc(s, n, p);
    } else {
      p := n;
    }
  }

  lemma NothingNewSnoc(s: seq<int>, n: nat, p: nat)
    requires n + 1 == |s| && p < n && s[n] in s[..n] && NothingNew(s[..n], p)
    ensures s[..n][..p] == s[..p] && NothingNew(s, p)
  {
    forall r | p < r < |s| ensures s[r] in s[..r] {
      if r < n {
        assert s[..n][r] in s[..n][..r] && s[..n][..r] == s[..r];
      }
    }
  }

  /** A path below a directory is collected with the port that came last as a new one: no insertion of the path
      brought a new one after it. */
  lemma CollectedServer(ts: seq<Trie>, ms: seq<Bag>, es: seq<Event>, dir: Word, k: nat) returns (p: nat)
    requires Trace(ts, ms, es) && dir != [] && k < |ListedBelow(ts[|es|], dir)|
    ensures |Collected(ts[|es|], ListedBelow(ts[|es|], dir))| == |ListedBelow(ts[|es|], dir)|
    ensures var ws := ListedBelow(ts[|es|], dir);
      var cell, s := Collected(ts[|es|], ws)[|ws| - 1 - k], Gifts(es, Since(ms, |es|, ws[k]), |es|, ws[k]);
      cell.val == ws[k] && FirstAt(s, p, cell.ssIndex) && NothingNew(s, p)
  {
    var t, ws := ts[|es|], ListedBelow(ts[|es|], dir);
    RunCounts(ts, ms, es, |es|);
    CollectedHasPort(t, ms[|es|], dir, ws[k]);
    CollectedAt(t, ws, k);
    p := FrontIsLastNew(ts, ms, es, ws[k]);
  }

  lemma CollectedHasPort(t: Trie, m: Bag, dir: Word, w: Word)
    requires Counts(t, m) && w in ListedBelow(t, dir)
    ensures w in t && t[w].ports != []
  {
    TrieWalk.CountsRooted(t, m);
    TrieWalk.ListingFacts(t, dir + [SLASH], 1);
    assert Sound(t[w], m, w);
  }

  /** The port in front of a node's list is the one that came last as a new one. */
  lemma FrontIsLastNew(ts: seq<Trie>, ms: seq<Bag>, es: seq<Event>, w: Word) returns (p: nat)
    requires Trace(ts, ms, es) && w in ts[|es|] && ts[|es|][w].ports != []
    ensures var s := Gifts(es, Since(ms, |es|, w), |es|, w);
      FirstAt(s, p, ts[|es|][w].ports[0]) && NothingNew(s, p)
  {
    var s, ports := Gifts(es, Since(ms, |es|, w), |es|, w), ts[|es|][w].ports;
    FoundIs(ts, ms, es, |es|, w);
    ReversedAt(ports, |ports| - 1);
    p := LastNew(s);
  }

  /** For all names d and f: create d on server 0 and d/f on server 1. A search for d then lists server 0 first, and
      so reads go there; but d is collected with server 1. */
  lemma TwoServers(d: Word, f: Word)
    requires Name(d) && Name(f)
    ensures var t := InsertAll(InsertAll(EMPTY_TRIE, ComponentPaths(d), 0), ComponentPaths(d + ['/'] + f), 1);
      && d in t && t[d].ports == [1, 0]
      && FoundPorts(t, d) == [0, 1] && FirstKnown(FoundPorts(t, d)) == 0
      && Collected(t, [d]) == [Entry(d, 1)]
  {
    ComponentPathsOfName(d);
    ComponentPathsOfTwo(d, f);
    TwoServersPorts(d, [d, d + ['/'] + f]);
    ReversedTwo(1, 0);
    assert [d][1..] == [];
  }

  lemma TwoServersPorts(d: Word, ws: seq<Word>)
    requires d in ws
    ensures var t := InsertAll(InsertAll(EMPTY_TRIE, [d], 0), ws, 1); d in t && t[d].ports == [1, 0]
  {
    var u := InsertAll(EMPTY_TRIE, [d], 0);
    NamespaceRuns.InsertAllPortsAre(EMPTY_TRIE, [d], 0, d);
    NamespaceRuns.InsertAllPortsAre(u, ws, 1, d);
    EmptyCounts();
    Namespace.InsertAllFacts(EMPTY_TRIE, multiset{}, [d], 0);
    Namespace.InsertAllFacts(u, multiset{} + multiset([d]), ws, 1);
    assert d in [d];
  }

  lemma ReversedTwo(a: int, b: int)
    ensures Reversed([a, b]) == [b, a]
  {
    assert [a, b][1..] == [b] && Reversed([b][1..]) == [];
  }
}
