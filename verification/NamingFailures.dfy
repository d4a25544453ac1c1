/** Short runs from the start of the server that end badly: inputs for the conditions under which the
    handlers do not do what they are for. */
module NamingFailures {
  import opened Words
  import opened Wrappers
  import opened PathNames
  import opened TrieModel
  import opened TriesHeap
  import opened TrieReading
  import opened NamespaceModel
  import N = Namespace
  import R = NamespaceRuns
  import opened NamingTrie
  import L = LruModel
  import opened LruHeap
  import opened NamingServer
  import opened NamingDeletes

  /** A create that gets no answer, at the very start: the cache then names a server for the path of which
      the trie knows nothing. */
  method SilentCreate(path1: Word, index: int) returns (thp: Tries, cache: LRUCache)
    requires Normal(path1)
    ensures thp.model == EMPTY_TRIE && index !in PortsOf(thp.model, path1)
    ensures L.GetResult(cache.model, path1).Some? && L.GetResult(cache.model, path1).value.items == [index]
    ensures !Synced(thp, cache)
  {
    thp, cache := StartServer();
    var already, ports := Create(thp, cache, path1, index, Silent);
    OneEntry(cache.capacity, path1, ports, 1);
  }

  lemma OneEntry(capacity: nat, p: Word, lh: LLHead, now: nat)
    requires capacity > 0
    ensures L.GetResult(L.Put([], capacity, p, lh, now), p) == Some(lh)
  {
    var c := L.Put([], capacity, p, lh, now);
    assert c == [L.Entry(p, lh, true, now)];
    var a := 0;
    assert 0 <= a <= 0 && c[a].anchor && L.Slot(c[a].path) == L.Slot(c[0].path);
    assert L.Visible(c, 0);
  }

  // ---------- a missing node ----------

  /** What two insertions of single names leave, p by a registration and q by a create. */
  ghost function TwoInserted(p: Word, q: Word, x: int, y: int): Trie {
    InsertAll(InsertAll(EMPTY_TRIE, [p], x), [q], y)
  }

  lemma TwoInsertedCounts(p: Word, q: Word, x: int, y: int)
    ensures Counts(TwoInserted(p, q, x, y), multiset{p, q})
  {
    var u := Insert(EMPTY_TRIE, p, x, x, x);
    EmptyCounts();
    InsertCounts(EMPTY_TRIE, multiset{}, p, x, x, x);
    assert multiset{} + multiset{p} == multiset{p};
    InsertCounts(u, multiset{p}, q, y, y, y);
    assert InsertAll(EMPTY_TRIE, [p], x) == InsertAll(u, [], x) == u;
    assert InsertAll(u, [q], y) == InsertAll(Insert(u, q, y, y, y), [], y);
    assert multiset{p} + multiset{q} == multiset{p, q};
  }

  lemma {:induction false} OneToken(s: Word, d: Letter)
    requires s != [] && d !in s
    ensures Tokens(s, d) == [s]
  {
    assert s[..|s|] == s;
    RunToEnd(s, d);
    assert s[|s|..] == [];
  }

  lemma {:induction false} RunToEnd(s: Word, d: Letter)
    requires d !in s
    ensures Run(s, d) == |s|
    decreases |s|
  {
    if s != [] { RunToEnd(s[1..], d); }
  }

  /** A storage server registers with the path p; nothing is known of p+n. */
  method RegisterOne(p: Word, n: Word, x: int) returns (thp: Tries, cache: LRUCache)
    requires Name(p) && Name(n) && NEWLINE !in p
    ensures Normal(p + n) && Tokens(p + n, SLASH) == [p + n]
    ensures Known(thp, cache, p + n) == [] && Got(cache, p + n) == []
    ensures fresh(thp.Repr) && fresh(cache.Repr) && Synced(thp, cache)
    ensures thp.model == InsertAll(EMPTY_TRIE, [p], x) && Lists(cache) == {} && cache.now == 0 && cache.capacity == 10
  {
    thp, cache := StartServer();
    OneToken(p, NEWLINE);
    RegisterSynced(thp, cache, p, x);
    NothingKnown(thp, cache, p, n, x);
  }

  /** The first create, of a path of one component: it is acknowledged and cached. */
  method CreateFirst(thp: Tries, cache: LRUCache, q: Word, y: int) returns (ports: LLHead)
    requires Synced(thp, cache) && Normal(q) && Tokens(q, SLASH) == [q] && cache.now == 0
    requires Known(thp, cache, q) == [] && Got(cache, q) == [] && Lists(cache) == {}
    modifies thp.Repr, cache.Repr
    ensures Synced(thp, cache) && fresh(thp.Repr - old(thp.Repr)) && fresh(cache.Repr - old(cache.Repr))
    ensures fresh(Lists(cache)) && ports.items == [y]
    ensures thp.model == InsertAll(old(thp.model), ComponentPaths(q), y)
    ensures cache.model == L.Put([], cache.capacity, q, ports, 1)
  {
    var already;
    already, ports := Create(thp, cache, q, y, Yes);
  }

  lemma NothingKnown(thp: Tries, cache: LRUCache, p: Word, n: Word, x: int)
    requires Name(p) && Name(n) && thp.model == InsertAll(EMPTY_TRIE, [p], x) && cache.model == []
    ensures Known(thp, cache, p + n) == [] && Got(cache, p + n) == [] && Lists(cache) == {}
    ensures Normal(p + n) && Tokens(p + n, SLASH) == [p + n]
  {
    NotYetKnown(p, n, x);
    ComponentPathsOfName(p + n);
    assert L.Find(cache.model, p + n) == 0;
  }

  lemma NotYetKnown(p: Word, n: Word, x: int)
    requires Name(p) && Name(n)
    ensures Name(p + n) && Normal(p + n)
    ensures InsertAll(EMPTY_TRIE, [p], x) == Insert(EMPTY_TRIE, p, x, x, x)
    ensures PortsOf(InsertAll(EMPTY_TRIE, [p], x), p + n) == []
  {
    NameFacts(p + n, p);
    InPrefixes(p + n, p);
    assert InsertAll(EMPTY_TRIE, [p], x) == InsertAll(Insert(EMPTY_TRIE, p, x, x, x), [], x);
  }

  /** The names differ, so the cached entry is found for p+n and not for p. */
  lemma FoundFor(p: Word, q: Word, ports: LLHead)
    requires p != q
    ensures L.Find([L.Entry(q, ports, true, 1)], p) == 1 && L.Find([L.Entry(q, ports, true, 1)], q) == 0
  {
    var c := [L.Entry(q, ports, true, 1)];
    assert L.AnchorFrom(c, L.Slot(q), 0) == 0;
  }

  lemma FirstDeleteTakes(p: Word, n: Word, x: int, y: int, t': Trie, m': Bag)
    requires Name(p) && Name(n) && p in TwoInserted(p, p + n, x, y)
    requires FileGone(TwoInserted(p, p + n, x, y), multiset{p, p + n}, p, t', m')
    ensures m' == multiset{p} && p + n !in t' && Counts(t', m')
  {
    var t, q, m := TwoInserted(p, p + n, x, y), p + n, multiset{p, p + n};
    TwoInsertedCounts(p, q, x, y);
    N.DeleteFileHits(N.State(t, m), p);
    assert q in m && p <= q && q != p;
    assert m - multiset{q} == multiset{p};
    BelowPositive(m', q);
  }

  lemma PortsOfFirst(p: Word, n: Word, x: int, y: int)
    requires Name(p) && Name(n)
    ensures p in TwoInserted(p, p + n, x, y) && TwoInserted(p, p + n, x, y)[p].ports == [x]
    ensures forall w | w in TwoInserted(p, p + n, x, y) :: |w| <= |p + n|
  {
    var u := Insert(EMPTY_TRIE, p, x, x, x);
    InPrefixes(p, p);
    assert InsertAll(EMPTY_TRIE, [p], x) == InsertAll(u, [], x) == u;
    assert InsertAll(u, [p + n], y) == InsertAll(Insert(u, p + n, y, y, y), [], y);
    forall w | w in TwoInserted(p, p + n, x, y) ensures |w| <= |p + n| {
      InPrefixes(w, p);
      InPrefixes(w, p + n);
    }
  }

  /** For all names p and n: with p registered and p+n created, deletefile of p takes p+n out of the trie and
      leaves it cached; deletefile of p+n then walks to a node that is not there. */
  method MissingNode(p: Word, n: Word, x: nat, y: nat) returns (crashed: bool)
    requires Name(p) && Name(n) && NEWLINE !in p && |p + n| < BUFFER
    ensures crashed
  {
    var thp, cache := RegisterOne(p, n, x);
    crashed := CreateAndDelete(thp, cache, p, n, x, y);
  }

  method CreateAndDelete(thp: Tries, cache: LRUCache, p: Word, n: Word, x: nat, y: nat) returns (crashed: bool)
    requires Name(p) && Name(n) && |p + n| < BUFFER && Synced(thp, cache) && cache.now == 0
    requires Normal(p + n) && Tokens(p + n, SLASH) == [p + n] && thp.model == InsertAll(EMPTY_TRIE, [p], x)
    requires Known(thp, cache, p + n) == [] && Got(cache, p + n) == [] && Lists(cache) == {}
    modifies thp.Repr, cache.Repr
    ensures crashed
  {
    ComponentPathsOfName(p + n);
    var ports := CreateOne(thp, cache, p + n, y);
    crashed := RemoveAndDelete(thp, cache, p, n, x, y, ports);
  }

  method RemoveAndDelete(thp: Tries, cache: LRUCache, p: Word, n: Word, x: nat, y: nat, ports: LLHead)
    returns (crashed: bool)
    requires Name(p) && Name(n) && |p + n| < BUFFER && thp.Valid() && thp.model == TwoInserted(p, p + n, x, y)
    requires cache.Ready() && cache.model == [L.Entry(p + n, ports, true, 1)]
    requires thp.Repr !! cache.Repr && ports !in thp.Repr && ports !in cache.Repr
    requires WellSized(ports) && ports.items == [y]
    modifies thp.Repr, cache.Repr, ports
    ensures crashed
  {
    ghost var m := DeleteFirst(thp, cache, p, n, x, y, ports);
    crashed := DeleteMissing(thp, cache, p + n, y, ports, m);
  }

  /** deletefile of p, which takes p+n; the cache knows p+n only, and goes on knowing it. */
  method DeleteFirst(thp: Tries, cache: LRUCache, p: Word, n: Word, x: nat, y: nat, ports: LLHead)
    returns (ghost m: Bag)
    requires Name(p) && Name(n) && |p + n| < BUFFER && thp.Valid() && thp.model == TwoInserted(p, p + n, x, y)
    requires cache.Ready() && cache.model == [L.Entry(p + n, ports, true, 1)] && thp.Repr !! cache.Repr
    modifies thp.Repr, cache.Repr
    ensures thp.Valid() && Fits(thp.model, BUFFER) && Counts(thp.model, m) && p + n !in thp.model
    ensures thp.Repr <= old(thp.Repr) && cache.Repr == old(cache.Repr)
    ensures cache.Ready() && cache.model == old(cache.model)
  {
    FoundFor(p, p + n, ports);
    TwoInsertedCounts(p, p + n, x, y);
    PortsOfFirst(p, n, x, y);
    ServerKnown(thp, cache, p, x);
    m := DeleteUncached(thp, cache, p, multiset{p, p + n});
    FirstDeleteTakes(p, n, x, y, thp.model, m);
  }

  lemma ServerKnown(thp: Tries, cache: LRUCache, p: Word, x: nat)
    requires L.Find(cache.model, p) == |cache.model| && PortsOf(thp.model, p) == [x]
    ensures FirstKnown(Known(thp, cache, p)) >= 0
  {
    ReversedOne(x);
  }

  lemma ReversedOne(x: int)
    ensures Reversed([x]) == [x]
  {
    assert Reversed([x][1..]) == [];
  }

  /** deletefile of a linked path that is not cached. */
  method DeleteUncached(thp: Tries, cache: LRUCache, p: Word, ghost m: Bag) returns (ghost m': Bag)
    requires thp.Valid() && Fits(thp.model, BUFFER) && Counts(thp.model, m) && p != [] && p in thp.model
    requires cache.Ready() && thp.Repr !! cache.Repr && L.Find(cache.model, p) == |cache.model|
    requires FirstKnown(Known(thp, cache, p)) >= 0
    modifies thp.Repr, cache.Repr
    ensures thp.Valid() && Fits(thp.model, BUFFER) && FileGone(old(thp.model), m, p, thp.model, m')
    ensures thp.Repr <= old(thp.Repr) && cache.Repr == old(cache.Repr)
    ensures cache.Ready() && cache.model == old(cache.model)
  {
    L.MissesAreAdmitted(cache.model, p);
    var index, crashed, intact;
    index, crashed, intact, m' := DeleteFile(thp, cache, p, m);
  }

  method DeleteMissing(thp: Tries, cache: LRUCache, q: Word, y: nat, ports: LLHead, ghost m: Bag)
    returns (crashed: bool)
    requires thp.Valid() && Fits(thp.model, BUFFER) && Counts(thp.model, m) && q != [] && q !in thp.model
    requires cache.Ready() && cache.model == [L.Entry(q, ports, true, 1)]
    requires thp.Repr !! cache.Repr && ports !in thp.Repr && ports !in cache.Repr
    requires WellSized(ports) && ports.items == [y]
    modifies thp.Repr, cache.Repr, ports
    ensures crashed
  {
    FoundFor(q + ['/'], q, ports);
    var index, intact;
    ghost var m';
    index, crashed, intact, m' := DeleteFile(thp, cache, q, m);
  }

  method CreateOne(thp: Tries, cache: LRUCache, q: Word, y: int) returns (ports: LLHead)
    requires Synced(thp, cache) && Normal(q) && Tokens(q, SLASH) == [q] && cache.now == 0
    requires Known(thp, cache, q) == [] && Got(cache, q) == [] && Lists(cache) == {}
    modifies thp.Repr, cache.Repr
    ensures thp.Valid() && thp.model == InsertAll(old(thp.model), ComponentPaths(q), y)
    ensures cache.Ready() && cache.model == [L.Entry(q, ports, true, 1)]
    ensures thp.Repr !! cache.Repr && ports !in thp.Repr && ports !in cache.Repr
    ensures fresh(thp.Repr - old(thp.Repr)) && fresh(cache.Repr - old(cache.Repr))
    ensures fresh(ports) && WellSized(ports) && ports.items == [y]
  {
    ports := CreateFirst(thp, cache, q, y);
    L.PutOne(cache.capacity, q, ports, 1);
    Cached(thp, cache, q, ports);
  }

  lemma Cached(thp: Tries, cache: LRUCache, q: Word, ports: LLHead)
    requires Synced(thp, cache) && cache.model == [L.Entry(q, ports, true, 1)]
    ensures ports in Lists(cache) && ports !in thp.Repr && ports !in cache.Repr && WellSized(ports)
  {
    assert (cache.model[0].path, ports) in Pairs(cache.model);
    assert Located(thp.model, q, ports);
  }

  /** The first three of these commands: the cache goes on naming a server for p+n, which the trie has lost. */
  method StaleAfterDelete(p: Word, n: Word, x: nat, y: nat) returns (thp: Tries, cache: LRUCache)
    requires Name(p) && Name(n) && NEWLINE !in p && |p + n| < BUFFER
    ensures p + n !in thp.model && L.GetResult(cache.model, p + n).Some? && !Synced(thp, cache)
  {
    thp, cache := RegisterOne(p, n, x);
    CreateAndKeep(thp, cache, p, n, x, y);
  }

  method CreateAndKeep(thp: Tries, cache: LRUCache, p: Word, n: Word, x: nat, y: nat)
    requires Name(p) && Name(n) && |p + n| < BUFFER && Synced(thp, cache) && cache.now == 0
    requires Normal(p + n) && Tokens(p + n, SLASH) == [p + n] && thp.model == InsertAll(EMPTY_TRIE, [p], x)
    requires Known(thp, cache, p + n) == [] && Got(cache, p + n) == [] && Lists(cache) == {}
    modifies thp.Repr, cache.Repr
    ensures p + n !in thp.model && L.GetResult(cache.model, p + n).Some? && !Synced(thp, cache)
  {
    ComponentPathsOfName(p + n);
    var ports := CreateOne(thp, cache, p + n, y);
    ghost var m := DeleteFirst(thp, cache, p, n, x, y, ports);
    FoundFor(p, p + n, ports);
    StaleEntry(thp, cache, p + n, ports, y);
  }

  lemma StaleEntry(thp: Tries, cache: LRUCache, q: Word, ports: LLHead, y: nat)
    requires cache.model == [L.Entry(q, ports, true, 1)] && ports.items == [y] && q !in thp.model
    ensures !Synced(thp, cache)
  {
    assert y in ports.items && y !in PortsOf(thp.model, q);
    if Synced(thp, cache) {
      CachedIsNamed(thp, cache, 0);
    }
  }

  // ---------- a missing directory ----------

  /** For all names p, n and r: create p, create p+n/r, deletefile p, deletedir p+n. The third command takes
      p+n instead of p; the fourth still finds it, drains its content, and then walks to a node that is not
      there. The cache is any that does not find p, as after enough other requests. */
  method MissingDirectory(p: Word, n: Word, r: Word, cache: LRUCache) returns (crashed: bool)
    requires Name(p) && Name(n) && Name(r) && |Target(p + n, r)| < BUFFER
    requires cache.Ready() && L.Find(cache.model, p) == |cache.model|
    modifies cache.Repr
    ensures crashed
  {
    ghost var m := R.Two(p, Target(p + n, r)).m;
    cache.NodesOwned();
    var thp := CreateTwo(p, Target(p + n, r));
    assert cache.Ready();
    TwoIsStored(p, n, r);
    crashed := DeleteTwice(thp, cache, p, p + n, m);
  }

  /** p is stored and q is a directory, and deletefile of p takes q away and leaves its content. */
  ghost predicate Stored(t: Trie, m: Bag, p: Word, q: Word) {
    && Fits(t, BUFFER) && Counts(t, m) && p in t && t[p].ports == [0]
    && FileGone(t, m, p, FileDeleted(t, p), m - multiset{q}) && HasPorts(FileDeleted(t, p), q)
    && forall x | x in m - multiset{q} && q <= x :: q + [SLASH] <= x
  }

  method CreateTwo(p: Word, z: Word) returns (thp: Tries)
    ensures thp.Valid() && fresh(thp.Repr)
    ensures thp.model == InsertAll(InsertAll(EMPTY_TRIE, ComponentPaths(p), 0), ComponentPaths(z), 0)
  {
    thp := new Tries();
    InsertPath(thp, p, 0);
    InsertPath(thp, z, 0);
  }

  method DeleteTwice(thp: Tries, cache: LRUCache, p: Word, q: Word, ghost m: Bag) returns (crashed: bool)
    requires thp.Valid() && Stored(thp.model, m, p, q) && p != [] && q != []
    requires cache.Ready() && thp.Repr !! cache.Repr && L.Find(cache.model, p) == |cache.model|
    modifies thp.Repr, cache.Repr
    ensures crashed
  {
    ServerKnown(thp, cache, p, 0);
    ghost var m' := DeleteUncached(thp, cache, p, m);
    assert m' == m - multiset{q};
    crashed := DeleteDirectory(thp, cache, q, m');
  }

  method DeleteDirectory(thp: Tries, cache: LRUCache, q: Word, ghost m: Bag) returns (crashed: bool)
    requires thp.Valid() && Fits(thp.model, BUFFER) && Counts(thp.model, m) && q != []
    requires cache.Ready() && thp.Repr !! cache.Repr
    requires HasPorts(thp.model, q) && forall x | x in m && q <= x :: q + [SLASH] <= x
    modifies thp.Repr, cache.Repr
    ensures crashed
  {
    var found, intact;
    ghost var t1, ws;
    found, crashed, intact, t1, ws := DeleteDir(thp, cache, q, m);
  }

  /** What the first two commands leave, and what the third then does. */
  lemma TwoIsStored(p: Word, n: Word, r: Word)
    requires Name(p) && Name(n) && Name(r) && |Target(p + n, r)| < BUFFER
    ensures var s := R.Two(p, Target(p + n, r));
      && s.t == InsertAll(InsertAll(EMPTY_TRIE, ComponentPaths(p), 0), ComponentPaths(Target(p + n, r)), 0)
      && Stored(s.t, s.m, p, p + n)
  {
    var q, z, s := p + n, Target(p + n, r), R.Two(p, Target(p + n, r));
    R.TwoNames(p, n, r);
    CopiesOfTwo(p, n, r);
    R.OrphanedDirectory(s, p, n, r);
    PortsOfOld(p, n, r);
    ShortWords(s.t, s.m, p, q, z);
    TwoIs(p, z);
  }

  lemma TwoIs(p: Word, z: Word)
    ensures R.Two(p, z).t == InsertAll(InsertAll(EMPTY_TRIE, ComponentPaths(p), 0), ComponentPaths(z), 0)
  {}

  lemma ShortWords(t: Trie, m: Bag, p: Word, q: Word, z: Word)
    requires Counts(t, m) && m == multiset([p]) + multiset([q, z]) && |p| <= |z| && |q| <= |z|
    ensures forall w | w in t :: |w| <= |z|
  {
    forall w | w in t ensures |w| <= |z| {
      BelowPositive(m, w);
    }
  }

  lemma CopiesOfTwo(p: Word, n: Word, r: Word)
    requires Name(p) && Name(n) && Name(r)
    ensures R.Two(p, Target(p + n, r)).m == multiset([p]) + multiset([p + n, Target(p + n, r)])
    ensures R.Two(p, Target(p + n, r)).m[p + n] == 1
  {
    NameFacts(p, p);
    NameFacts(p + n, p);
    NameFacts(r, r);
    R.NormalTarget(p + n, r);
    R.TwoFacts(p, Target(p + n, r));
    ComponentPathsOfName(p);
    ComponentPathsOfTwo(p + n, r);
    OnceIn(p, p + n, Target(p + n, r));
  }

  lemma OnceIn(p: Word, q: Word, z: Word)
    requires p != q && q != z
    ensures (multiset([p]) + multiset([q, z]))[q] == 1
  {}

  /** The second create does not touch the record of p. */
  lemma PortsOfOld(p: Word, n: Word, r: Word)
    requires Name(p) && Name(n) && Name(r)
    ensures var s := R.Two(p, Target(p + n, r)); p in s.t && s.t[p].ports == [0]
  {
    ComponentPathsOfName(p);
    ComponentPathsOfTwo(p + n, r);
    PortsStay(p, [p + n, Target(p + n, r)]);
  }

  lemma PortsStay(p: Word, ws: seq<Word>)
    requires p !in ws
    ensures var t := InsertAll(InsertAll(EMPTY_TRIE, [p], 0), ws, 0); p in t && t[p].ports == [0]
  {
    var u := InsertAll(EMPTY_TRIE, [p], 0);
    R.InsertAllPortsAre(EMPTY_TRIE, [p], 0, p);
    R.InsertAllPortsAre(u, ws, 0, p);
    EmptyCounts();
    N.InsertAllFacts(EMPTY_TRIE, multiset{}, [p], 0);
    N.InsertAllFacts(u, multiset{} + multiset([p]), ws, 0);
    assert p in [p];
  }

  // ---------- a removed path that is still found ----------

  /** Two paths of different slots are put and the second is removed: its slot goes on pointing at the removed
      node, so that the next lookup of the path hits it although it is not in the list. */
  method RemovedStaysFound(p: Word, x: LLHead, q: Word, y: LLHead) returns (cache: LRUCache)
    requires L.Slot(p) != L.Slot(q)
    ensures cache.hashMap.Length == 31 && !cache.SlotOk(L.Slot(q))
    ensures var node := cache.hashMap[L.Slot(q)]; node != null && node.filePath == q && node !in cache.list
  {
    cache := new LRUCache(10);
    L.TwoSlots(10, p, x, q, y);
    L.PutOne(10, p, x, 0);
    L.PutTwo(10, L.Entry(p, x, true, 0), q, y, 1);
    cache.Put(p, x);
    cache.NodesOwned();
    cache.Put(q, y);
    cache.NodesOwned();
    cache.Distinct(0, 1);
    var lh := cache.RemoveForDelete(q);
  }
}
