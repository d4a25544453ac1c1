/** What searchWords reports, told from the history of insertions and deletions alone. */
module SearchHistory {
  import opened Words
  import opened TrieModel
  import opened TriesHeap
  import opened TrieReading

  datatype Event = Ins(w: Word, a: int, b: int, c: int) | Del(w: Word)

  /** One event; only outstanding words are deleted. */
  ghost predicate Step(t: Trie, m: Bag, e: Event, t': Trie, m': Bag) {
    match e
    case Ins(w, a, b, c) => t' == Insert(t, w, a, b, c) && m' == m + multiset{w}
    case Del(w) => w in m && t' == Delete(t, w) && m' == m - multiset{w}
  }

  /** The tries and bags of an admissible run, before and after each event. */
  ghost predicate Trace(ts: seq<Trie>, ms: seq<Bag>, es: seq<Event>) {
    && |ts| == |ms| == |es| + 1 && ts[0] == EMPTY_TRIE && ms[0] == multiset{}
    && forall k {:trigger StepAt(ts, ms, es, k)} | 0 <= k < |es| :: StepAt(ts, ms, es, k)
  }

  ghost predicate StepAt(ts: seq<Trie>, ms: seq<Bag>, es: seq<Event>, k: nat)
    requires k < |es| && |ts| == |ms| == |es| + 1
  {
    Step(ts[k], ms[k], es[k], ts[k + 1], ms[k + 1])
  }

  lemma StepCounts(t: Trie, m: Bag, e: Event, t': Trie, m': Bag)
    requires Counts(t, m) && Step(t, m, e, t', m')
    ensures Counts(t', m')
  {
    match e
    case Ins(w, a, b, c) => InsertCounts(t, m, w, a, b, c);
    case Del(w) => DeleteCounts(t, m, w);
  }

  /** The counting invariant holds after every event of every admissible run. */
  lemma {:induction false} RunCounts(ts: seq<Trie>, ms: seq<Bag>, es: seq<Event>, n: nat)
    requires Trace(ts, ms, es) && n <= |es|
    ensures Counts(ts[n], ms[n])
  {
    if n == 0 {
      EmptyCounts();
    } else {
      RunCounts(ts, ms, es, n - 1);
      assert StepAt(ts, ms, es, n - 1);
      StepCounts(ts[n - 1], ms[n - 1], es[n - 1], ts[n], ms[n]);
    }
  }

  /** A path has no node exactly while nothing outstanding starts with it; the root is always there. */
  ghost predicate Vanished(m: Bag, q: Word) {
    q != [] && Below(m, q) == 0
  }

  /** The last moment up to n at which q had no node, or the beginning. */
  ghost function Since(ms: seq<Bag>, n: nat, q: Word): (k: nat)
    requires n < |ms|
    ensures k <= n && (k == 0 || Vanished(ms[k], q)) && forall j | k < j <= n :: !Vanished(ms[j], q)
  {
    if n == 0 || Vanished(ms[n], q) then n else Since(ms, n - 1, q)
  }

  ghost predicate Gives(e: Event, q: Word, x: int) {
    e.Ins? && e.w == q && (x == e.a || x == e.b || x == e.c)
  }

  /** Port x was given to an insertion of q itself among the events k to n. */
  ghost predicate Given(es: seq<Event>, k: nat, n: nat, q: Word, x: int)
    requires n <= |es|
  {
    exists i :: k <= i < n && Gives(es[i], q, x)
  }

  /** q itself was inserted among the events k to n. */
  ghost predicate Inserted(es: seq<Event>, k: nat, n: nat, q: Word)
    requires n <= |es|
  {
    exists i :: k <= i < n && es[i].Ins? && es[i].w == q
  }

  lemma GivenStep(es: seq<Event>, k: nat, n: nat, q: Word, x: int)
    requires k < n <= |es|
    ensures Given(es, k, n, q, x) <==> Given(es, k, n - 1, q, x) || Gives(es[n - 1], q, x)
  {}

  lemma StepPorts(t: Trie, m: Bag, e: Event, t': Trie, m': Bag, q: Word, x: int)
    requires Counts(t, m) && Step(t, m, e, t', m') && q in t'
    ensures x in t'[q].ports <==> x in At(t, q).ports || Gives(e, q, x)
  {
    if e.Ins? {
      InPrefixes(q, e.w);
      if q == e.w {
        AddPortsFacts(At(t, q).ports, e.a, e.b, e.c);
      }
    }
  }

  lemma NodeStep(ts: seq<Trie>, ms: seq<Bag>, es: seq<Event>, n: nat, q: Word, x: int)
    requires Trace(ts, ms, es) && n < |es| && q in ts[n + 1]
    ensures x in ts[n + 1][q].ports <==> x in At(ts[n], q).ports || Gives(es[n], q, x)
    ensures !Vanished(ms[n + 1], q) && (q in ts[n] <==> !Vanished(ms[n], q))
  {
    RunCounts(ts, ms, es, n);
    assert StepAt(ts, ms, es, n);
    StepCounts(ts[n], ms[n], es[n], ts[n + 1], ms[n + 1]);
    StepPorts(ts[n], ms[n], es[n], ts[n + 1], ms[n + 1], q, x);
  }

  /** A linked node knows exactly the ports inserted for it since it was last created. */
  lemma {:induction false} PortsAreGiven(ts: seq<Trie>, ms: seq<Bag>, es: seq<Event>, n: nat, q: Word, x: int)
    requires Trace(ts, ms, es) && n <= |es| && q in ts[n]
    ensures x in ts[n][q].ports <==> Given(es, Since(ms, n, q), n, q, x)
  {
    if n != 0 {
      NodeStep(ts, ms, es, n - 1, q, x);
      GivenStep(es, Since(ms, n - 1, q), n, q, x);
      if q in ts[n - 1] {
        PortsAreGiven(ts, ms, es, n - 1, q, x);
      }
    }
  }

  lemma {:induction false} ReversedNoDup(s: seq<int>)
    requires NoDup(s)
    ensures NoDup(Reversed(s))
  {
    if s != [] {
      ReversedNoDup(s[1..]);
      ReversedSame(s[1..], s[0]);
      var r := Reversed(s[1..]);
      forall i, j | 0 <= i < j < |Reversed(s)| ensures Reversed(s)[i] != Reversed(s)[j] {
        if j == |r| {
          assert r[i] in r;
        }
      }
    }
  }

  /** The size that searchWords leaves in an empty list. */
  ghost function FoundSize(t: Trie, q: Word): int {
    if q !in t then 0 else if t[q].ports == [] then -1 else |t[q].ports|
  }

  /** The list it leaves there. */
  ghost function FoundPorts(t: Trie, q: Word): seq<int> {
    if q in t then Reversed(t[q].ports) else []
  }

  /** The search of the handlers: searchWords into a new list. */
  method SearchNew(thp: Tries, q: Word) returns (lh: LLHead)
    requires thp.Valid()
    ensures fresh(lh) && lh.currSize == FoundSize(thp.model, q) && lh.items == FoundPorts(thp.model, q)
  {
    lh := new LLHead();
    SearchWords(thp, q, lh);
    ReversedSame(At(thp.model, q).ports, 0);
  }

  /** After any admissible run a search into an empty list reports 0 when nothing outstanding extends
      the query, -1 when the query was not inserted since its node was last created, and otherwise the
      distinct ports inserted for it since then, each once. */
  lemma SearchTellsHistory(ts: seq<Trie>, ms: seq<Bag>, es: seq<Event>, q: Word)
    requires Trace(ts, ms, es)
    ensures var n, t := |es|, ts[|es|]; var k := Since(ms, n, q);
      && (FoundSize(t, q) == 0 <==> q != [] && forall u | u in ms[n] :: !(q <= u))
      && (FoundSize(t, q) == -1 <==> FoundSize(t, q) != 0 && !Inserted(es, k, n, q))
      && (FoundSize(t, q) > 0 ==> FoundSize(t, q) == |FoundPorts(t, q)| && NoDup(FoundPorts(t, q)))
      && (FoundSize(t, q) != 0 ==> forall x :: x in FoundPorts(t, q) <==> Given(es, k, n, q, x))
  {
    var n, t := |es|, ts[|es|];
    var k := Since(ms, n, q);
    RunCounts(ts, ms, es, n);
    BelowPositive(ms[n], q);
    if q in t {
      var ports := t[q].ports;
      forall x ensures x in Reversed(ports) <==> Given(es, k, n, q, x) {
        PortsAreGiven(ts, ms, es, n, q, x);
        ReversedSame(ports, x);
      }
      ReversedNoDup(ports);
      ReversedSame(ports, 0);
      if ports != [] {
        PortsAreGiven(ts, ms, es, n, q, ports[0]);
        assert Inserted(es, k, n, q);
      } else if Inserted(es, k, n, q) {
        var i :| k <= i < n && es[i].Ins? && es[i].w == q;
        assert Gives(es[i], q, es[i].a);
        PortsAreGiven(ts, ms, es, n, q, es[i].a);
      }
    }
  }
}
