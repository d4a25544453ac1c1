/** The handlers that keep the cache in step with the trie: create, read, write, info, registration.
    Cached lists are shared between entries and updated in place. */
module NamingServer {
  import opened Words
  import opened Wrappers
  import opened PathNames
  import opened TrieModel
  import opened TriesHeap
  import opened TrieReading
  import opened NamespaceModel
  import opened NamingTrie
  import L = LruModel
  import opened LruHeap

  type Pair = (Word, LLHead)

  /** Which list is cached for which path, visible or not. */
  ghost function Pairs(c: L.Cache<LLHead>): set<Pair> {
    set i | 0 <= i < |c| :: (c[i].path, c[i].lh)
  }

  lemma GetPairs(c: L.Cache<LLHead>, p: Word, now: nat)
    ensures Pairs(L.Get(c, p, now)) <= Pairs(c)
    ensures L.GetResult(c, p).Some? ==> (p, L.GetResult(c, p).value) in Pairs(c)
  {
    var i := L.Find(c, p);
    if i < |c| {
      TouchPairs(c, i, c[i].lh, now);
      assert (c[i].path, c[i].lh) in Pairs(c);
    }
  }

  lemma TouchPairs(c: L.Cache<LLHead>, i: nat, lh: LLHead, now: nat)
    requires i < |c|
    ensures Pairs(L.Touch(c, i, lh, now)) <= Pairs(c) + {(c[i].path, lh)}
  {
    var d := L.Touch(c, i, lh, now);
    forall k | 0 <= k < |d| ensures (d[k].path, d[k].lh) in Pairs(c) + {(c[i].path, lh)} {
      if k < |c| - 1 {
        assert d[k] == c[L.Origin(i, k)];
      }
    }
  }

  lemma PutPairs(c: L.Cache<LLHead>, capacity: nat, p: Word, lh: LLHead, now: nat)
    requires capacity > 0
    ensures Pairs(L.Put(c, capacity, p, lh, now)) <= Pairs(c) + {(p, lh)}
  {
    var i := L.Find(c, p);
    if i < |c| {
      TouchPairs(c, i, lh, now);
    } else {
      L.PutMakesRoom(c, capacity, p, lh, now);
      var d := L.Put(c, capacity, p, lh, now);
      forall k | 0 <= k < |d| ensures (d[k].path, d[k].lh) in Pairs(c) + {(p, lh)} {
        if k < |d| - 1 {
          var o := if |c| >= capacity then k + 1 else k;
          assert d[k].path == c[o].path && d[k].lh == c[o].lh;
        }
      }
    }
  }

  // ---------- coherence ----------

  ghost function PortsOf(t: Trie, p: Word): seq<int> {
    At(t, p).ports
  }

  ghost predicate Within(a: seq<int>, b: seq<int>) {
    forall x | x in a :: x in b
  }

  ghost predicate Located(t: Trie, p: Word, lh: LLHead)
    reads lh
  {
    WellSized(lh) && Within(lh.items, PortsOf(t, p))
  }

  /** No empty list is cached for two paths. */
  ghost predicate Alone(pl: Pair, pm: Pair)
    reads pl.1
  {
    pl.1 == pm.1 && pl.1.items == [] ==> pl.0 == pm.0
  }

  /** Every cached list only names servers that the trie names for the path; an empty list, which a later
      create may fill in place, is cached for one path only. */
  ghost predicate Coherent(t: Trie, pairs: set<Pair>)
    reads set pl | pl in pairs :: pl.1
  {
    && (forall pl | pl in pairs :: Located(t, pl.0, pl.1))
    && (forall pl, pm {:trigger Alone(pl, pm)} | pl in pairs && pm in pairs :: Alone(pl, pm))
  }

  lemma {:induction false} InsertAllPorts(t: Trie, ws: seq<Word>, server: int, q: Word)
    ensures Within(PortsOf(t, q), PortsOf(InsertAll(t, ws, server), q))
    ensures q in ws ==> server in PortsOf(InsertAll(t, ws, server), q)
    decreases ws
  {
    if ws != [] {
      var u := Insert(t, ws[0], server, server, server);
      InPrefixes(q, ws[0]);
      InsertAllPorts(u, ws[1..], server, q);
      assert q in ws ==> q == ws[0] || q in ws[1..];
    }
  }

  lemma CoherentMonotone(t: Trie, u: Trie, pairs: set<Pair>, fewer: set<Pair>)
    requires Coherent(t, pairs) && fewer <= pairs
    requires forall pl | pl in pairs :: Within(PortsOf(t, pl.0), PortsOf(u, pl.0))
    ensures Coherent(u, fewer)
  {
    forall pl | pl in fewer ensures Located(u, pl.0, pl.1) {
      assert Located(t, pl.0, pl.1);
    }
  }

  /** The list is cached for no path but p as long as it is empty. */
  ghost predicate OnlyFor(pairs: set<Pair>, p: Word, lh: LLHead)
    reads lh
  {
    lh.items == [] ==> forall pl | pl in pairs && pl.1 == lh :: pl.0 == p
  }

  lemma CoherentAdd(t: Trie, pairs: set<Pair>, p: Word, lh: LLHead)
    requires Coherent(t, pairs) && Located(t, p, lh) && OnlyFor(pairs, p, lh)
    ensures Coherent(t, pairs + {(p, lh)})
  {}

  // ---------- the cache side of a handler, for a given trie ----------

  ghost predicate InStep(cache: LRUCache, t: Trie)
    reads cache, cache.Repr, cache.hashMap, cache.list
    reads set pl | pl in Pairs(cache.model) :: pl.1
  {
    && cache.Ready() && cache.capacity >= 2
    && Coherent(t, Pairs(cache.model)) && forall pl | pl in Pairs(cache.model) :: pl.1 !in cache.Repr
  }

  /** The moment after: a put that follows a get. */
  ghost function Next(now: nat): nat {
    now + 1
  }

  /** The cache after a get of the path. */
  ghost function Got(cache: LRUCache, path: Word): L.Cache<LLHead>
    reads cache
  {
    L.Get(cache.model, path, cache.now)
  }

  ghost function Hit(cache: LRUCache, path: Word): set<LLHead>
    reads cache
  {
    match L.GetResult(cache.model, path) case Some(lh) => {lh} case None => {}
  }

  /** The servers that the search of a handler finds: those of the cached list, or those of the trie. */
  ghost function Known(thp: Tries, cache: LRUCache, path: Word): seq<int>
    reads thp, cache, Hit(cache, path)
  {
    match L.GetResult(cache.model, path)
    case Some(lh) => lh.items
    case None => Reversed(PortsOf(thp.model, path))
  }

  method CachedList(cache: LRUCache, path: Word, ghost t: Trie) returns (portsFound: LLHead?)
    requires InStep(cache, t)
    modifies cache.Repr
    ensures InStep(cache, t) && Pairs(cache.model) <= old(Pairs(cache.model)) && cache.Repr == old(cache.Repr)
    ensures portsFound != null ==> (path, portsFound) in old(Pairs(cache.model))
    ensures match L.GetResult(old(cache.model), path) case Some(v) => portsFound == v case None => portsFound == null
    ensures cache.model == old(Got(cache, path)) && cache.now == Next(old(cache.now))
    ensures portsFound != null ==> Located(t, path, portsFound) && OnlyFor(Pairs(cache.model), path, portsFound)
  {
    GetPairs(cache.model, path, cache.now);
    cache.NodesOwned();
    ghost var pairs := Pairs(cache.model);
    portsFound := cache.Get(path);
    assert Coherent(t, pairs);
    CoherentMonotone(t, t, pairs, Pairs(cache.model));
    if portsFound != null {
      HitIsOnlyFor(t, pairs, path, portsFound);
    }
  }

  lemma HitIsOnlyFor(t: Trie, pairs: set<Pair>, p: Word, lh: LLHead)
    requires Coherent(t, pairs) && (p, lh) in pairs
    ensures Located(t, p, lh) && OnlyFor(pairs, p, lh)
  {
    forall pl | pl in pairs ensures Alone(pl, (p, lh)) {}
    assert Located(t, (p, lh).0, (p, lh).1);
  }

  lemma PutCoherent(c: L.Cache<LLHead>, capacity: nat, p: Word, lh: LLHead, now: nat, t: Trie)
    requires capacity > 0 && Coherent(t, Pairs(c)) && Located(t, p, lh) && OnlyFor(Pairs(c), p, lh)
    ensures Pairs(L.Put(c, capacity, p, lh, now)) <= Pairs(c) + {(p, lh)}
    ensures Coherent(t, Pairs(L.Put(c, capacity, p, lh, now)))
  {
    PutPairs(c, capacity, p, lh, now);
    CoherentAdd(t, Pairs(c), p, lh);
    CoherentMonotone(t, t, Pairs(c) + {(p, lh)}, Pairs(L.Put(c, capacity, p, lh, now)));
  }

  method CacheList(cache: LRUCache, path: Word, ports: LLHead, ghost t: Trie)
    requires InStep(cache, t) && ports !in cache.Repr
    requires Located(t, path, ports) && OnlyFor(Pairs(cache.model), path, ports)
    modifies cache.Repr
    ensures InStep(cache, t) && fresh(cache.Repr - old(cache.Repr)) && ports !in cache.Repr
    ensures Pairs(cache.model) <= old(Pairs(cache.model)) + {(path, ports)}
    ensures cache.model == L.Put(old(cache.model), cache.capacity, path, ports, old(cache.now))
    ensures cache.now == old(cache.now) + 1
  {
    PutCoherent(cache.model, cache.capacity, path, ports, cache.now, t);
    cache.NodesOwned();
    ghost var pairs := Pairs(L.Put(cache.model, cache.capacity, path, ports, cache.now));
    cache.Put(path, ports);
    assert Coherent(t, pairs);
  }

  lemma ReversedWithin(s: seq<int>)
    ensures Within(Reversed(s), s) && |Reversed(s)| == |s|
  {
    ReversedSame(s, 0);
    forall x | x in Reversed(s) ensures x in s {
      ReversedSame(s, x);
    }
  }

  /** A list that says "present without ports" counts as an empty one from here on. */
  method Settle(cache: LRUCache, path: Word, ports: LLHead, ghost t: Trie)
    requires InStep(cache, t) && ports !in cache.Repr && Located(t, path, ports)
    modifies ports
    ensures InStep(cache, t) && Located(t, path, ports)
    ensures ports.currSize == |ports.items| && ports.items == old(ports.items)
  {
    ghost var pairs := Pairs(cache.model);
    assert forall pl | pl in pairs :: Located(t, pl.0, pl.1);
    if ports.currSize == -1 {
      ports.currSize := ports.currSize + 1;
    }
    assert cache.Ready();
    forall pl, pm | pl in pairs && pm in pairs ensures Located(t, pl.0, pl.1) && Alone(pl, pm) {
      assert old(Alone(pl, pm));
    }
  }

  // ---------- the handlers ----------

  ghost function Lists(cache: LRUCache): set<LLHead>
    reads cache
  {
    set pl | pl in Pairs(cache.model) :: pl.1
  }

  /** Every cached list but one was cached before, and names the same servers. */
  twostate predicate OthersKept(cache: LRUCache, new ports: LLHead)
    reads cache, Lists(cache)
  {
    forall lh | lh in Lists(cache) && lh != ports :: lh in old(Lists(cache)) && lh.items == old(lh.items)
  }

  /** Trie and cache are sound, apart on the heap, and in step: the cache invents no location. */
  ghost predicate Synced(thp: Tries, cache: LRUCache)
    reads thp, thp.Repr, cache, cache.Repr, cache.hashMap, cache.list, Lists(cache)
  {
    && thp.Valid() && InStep(cache, thp.model)
    && thp.Repr !! cache.Repr && thp.Repr !! Lists(cache)
  }

  ghost predicate Backwards(a: seq<int>, b: seq<int>) {
    |a| == |b| && forall k | 0 <= k < |a| :: a[k] == b[|b| - 1 - k]
  }

  /** The search in the trie: the ports of the path from the last to the first. */
  method FromTrie(thp: Tries, path: Word) returns (ports: LLHead)
    requires thp.Valid()
    ensures fresh(ports) && Located(thp.model, path, ports)
    ensures ports.items == Reversed(PortsOf(thp.model, path))
    ensures Backwards(ports.items, PortsOf(thp.model, path))
  {
    ports := new LLHead();
    SearchWords(thp, path, ports);
    assert ports.items == Reversed(PortsOf(thp.model, path));
    ReversedWithin(At(thp.model, path).ports);
  }

  /** The search that opens every handler: the cache first, then the trie into a new list. A hit never
      names a server that the trie does not name for the path. */
  method Locate(thp: Tries, cache: LRUCache, path: Word) returns (ports: LLHead, cached: bool)
    requires Synced(thp, cache)
    modifies cache.Repr
    ensures Synced(thp, cache) && thp.model == old(thp.model) && thp.Repr == old(thp.Repr)
    ensures Pairs(cache.model) <= old(Pairs(cache.model)) && cache.Repr == old(cache.Repr)
    ensures Located(thp.model, path, ports) && OnlyFor(Pairs(cache.model), path, ports)
    ensures if cached then ports in old(Lists(cache)) else fresh(ports)
    ensures ports !in thp.Repr && ports !in cache.Repr
    ensures cached == old(L.GetResult(cache.model, path).Some?) && ports.items == old(Known(thp, cache, path))
    ensures cached ==> L.GetResult(old(cache.model), path) == Some(ports)
    ensures cache.model == old(Got(cache, path)) && cache.now == Next(old(cache.now))
    ensures ports in old(Lists(cache)) ==> ports.items == old(ports.items)
  {
    var portsFound := CachedList(cache, path, thp.model);
    assert thp.Valid();
    cached := portsFound != null;
    if portsFound == null {
      ports := FromTrie(thp, path);
      assert thp.Valid() && InStep(cache, thp.model);
    } else {
      ports := portsFound;
    }
  }

  /** put, and the trie keeps out of it. */
  method Remember(thp: Tries, cache: LRUCache, path: Word, ports: LLHead)
    requires Synced(thp, cache) && ports !in cache.Repr && ports !in thp.Repr
    requires Located(thp.model, path, ports) && OnlyFor(Pairs(cache.model), path, ports)
    modifies cache.Repr
    ensures Synced(thp, cache) && thp.model == old(thp.model) && fresh(cache.Repr - old(cache.Repr))
    ensures Pairs(cache.model) <= old(Pairs(cache.model)) + {(path, ports)} && thp.Repr == old(thp.Repr)
    ensures cache.model == L.Put(old(cache.model), cache.capacity, path, ports, old(cache.now))
    ensures cache.now == old(cache.now) + 1
  {
    CacheList(cache, path, ports, thp.model);
    assert thp.Valid();
  }

  /** Readfunctionality up to the choice of the server: a path that was found is cached (again), and the
      server read from is one that the trie names for it. */
  method Read(thp: Tries, cache: LRUCache, path1: Word) returns (index: int, ports: LLHead)
    requires Synced(thp, cache)
    modifies cache.Repr, Lists(cache)
    ensures Synced(thp, cache) && thp.model == old(thp.model)
    ensures thp.Repr == old(thp.Repr) && fresh(cache.Repr - old(cache.Repr))
    ensures OthersKept(cache, ports) && (ports in old(Lists(cache)) || fresh(ports))
    ensures index == FirstKnown(ports.items) && ports.items == old(Known(thp, cache, path1))
    ensures index == -1 || index in PortsOf(thp.model, path1)
    ensures cache.model == if ports.items == [] then old(Got(cache, path1))
                           else L.Put(old(Got(cache, path1)), cache.capacity, path1, ports, Next(old(cache.now)))
    ensures cache.now == old(cache.now) + if ports.items == [] then 1 else 2
    ensures ports in old(Lists(cache)) ==> ports.items == old(ports.items)
  {
    var cached;
    ports, cached := Locate(thp, cache, path1);
    index := ReadFound(thp, cache, path1, ports);
  }

  /** What read does with the list it found. */
  method ReadFound(thp: Tries, cache: LRUCache, path: Word, ports: LLHead) returns (index: int)
    requires Synced(thp, cache) && ports !in cache.Repr && ports !in thp.Repr
    requires Located(thp.model, path, ports) && OnlyFor(Pairs(cache.model), path, ports)
    modifies cache.Repr, ports
    ensures Synced(thp, cache) && thp.model == old(thp.model) && thp.Repr == old(thp.Repr)
    ensures fresh(cache.Repr - old(cache.Repr)) && OthersKept(cache, ports)
    ensures index == FirstKnown(ports.items) && ports.items == old(ports.items)
    ensures cache.model == if ports.items == [] then old(cache.model)
                           else L.Put(old(cache.model), cache.capacity, path, ports, old(cache.now))
    ensures cache.now == old(cache.now) + if ports.items == [] then 0 else 1
  {
    index := ReadTail(cache, path, ports, thp.model);
    assert thp.Valid();
  }

  method ReadTail(cache: LRUCache, path: Word, ports: LLHead, ghost t: Trie) returns (index: int)
    requires InStep(cache, t) && ports !in cache.Repr
    requires Located(t, path, ports) && OnlyFor(Pairs(cache.model), path, ports)
    modifies cache.Repr, ports
    ensures InStep(cache, t) && fresh(cache.Repr - old(cache.Repr)) && ports !in cache.Repr
    ensures Pairs(cache.model) <= old(Pairs(cache.model)) + {(path, ports)}
    ensures index == FirstKnown(ports.items) && ports.items == old(ports.items)
    ensures cache.model == if ports.items == [] then old(cache.model)
                           else L.Put(old(cache.model), cache.capacity, path, ports, old(cache.now))
    ensures cache.now == old(cache.now) + if ports.items == [] then 0 else 1
  {
    Settle(cache, path, ports, t);
    index := -1;
    if ports.currSize != 0 {
      index := CacheAndPick(cache, path, ports, t);
    }
  }

  method CacheAndPick(cache: LRUCache, path: Word, ports: LLHead, ghost t: Trie) returns (index: int)
    requires InStep(cache, t) && ports !in cache.Repr
    requires Located(t, path, ports) && OnlyFor(Pairs(cache.model), path, ports)
    modifies cache.Repr
    ensures InStep(cache, t) && fresh(cache.Repr - old(cache.Repr)) && ports !in cache.Repr
    ensures Pairs(cache.model) <= old(Pairs(cache.model)) + {(path, ports)}
    ensures cache.model == L.Put(old(cache.model), cache.capacity, path, ports, old(cache.now))
    ensures cache.now == old(cache.now) + 1 && index == FirstKnown(ports.items)
  {
    CacheList(cache, path, ports, t);
    index := FirstPort(ports);
  }

  method LocateAndRemember(thp: Tries, cache: LRUCache, path: Word) returns (ports: LLHead)
    requires Synced(thp, cache)
    modifies cache.Repr
    ensures Synced(thp, cache) && thp.model == old(thp.model) && Located(thp.model, path, ports)
    ensures thp.Repr == old(thp.Repr) && fresh(cache.Repr - old(cache.Repr))
    ensures OthersKept(cache, ports) && (ports in old(Lists(cache)) || fresh(ports))
    ensures ports !in thp.Repr && ports !in cache.Repr && ports.items == old(Known(thp, cache, path))
    ensures cache.model == if old(L.GetResult(cache.model, path).Some?) then old(Got(cache, path))
                           else L.Put(old(Got(cache, path)), cache.capacity, path, ports, Next(old(cache.now)))
    ensures cache.now == old(cache.now) + if old(L.GetResult(cache.model, path).Some?) then 1 else 2
    ensures ports in old(Lists(cache)) ==> ports.items == old(ports.items)
  {
    var cached;
    ports, cached := Locate(thp, cache, path);
    if !cached {
      Remember(thp, cache, path, ports);
    }
  }

  /** Writefunctionality, and Infofunctionality which has the same text: a list found in the trie is
      cached even when it is empty. */
  method Write(thp: Tries, cache: LRUCache, path1: Word) returns (index: int, ports: LLHead)
    requires Synced(thp, cache)
    modifies cache.Repr, Lists(cache)
    ensures Synced(thp, cache) && thp.model == old(thp.model)
    ensures thp.Repr == old(thp.Repr) && fresh(cache.Repr - old(cache.Repr))
    ensures OthersKept(cache, ports) && (ports in old(Lists(cache)) || fresh(ports))
    ensures index == FirstKnown(ports.items) && ports.items == old(Known(thp, cache, path1))
    ensures index == -1 || index in PortsOf(thp.model, path1)
    ensures cache.model == if old(L.GetResult(cache.model, path1).Some?) then old(Got(cache, path1))
                           else L.Put(old(Got(cache, path1)), cache.capacity, path1, ports, Next(old(cache.now)))
    ensures cache.now == old(cache.now) + if old(L.GetResult(cache.model, path1).Some?) then 1 else 2
    ensures ports in old(Lists(cache)) ==> ports.items == old(ports.items)
  {
    ports := LocateAndRemember(thp, cache, path1);
    index := SettleAndPick(thp, cache, path1, ports);
  }

  method SettleAndPick(thp: Tries, cache: LRUCache, path: Word, ports: LLHead) returns (index: int)
    requires Synced(thp, cache) && ports !in cache.Repr && ports !in thp.Repr && Located(thp.model, path, ports)
    modifies ports
    ensures Synced(thp, cache) && index == FirstKnown(ports.items)
    ensures ports.items == old(ports.items)
  {
    index := PickSettled(cache, path, ports, thp.model);
    assert thp.Valid();
  }

  method PickSettled(cache: LRUCache, path: Word, ports: LLHead, ghost t: Trie) returns (index: int)
    requires InStep(cache, t) && ports !in cache.Repr && Located(t, path, ports)
    modifies ports
    ensures InStep(cache, t) && Located(t, path, ports)
    ensures index == FirstKnown(ports.items) && ports.items == old(ports.items)
  {
    Settle(cache, path, ports, t);
    index := -1;
    if ports.currSize != 0 {
      index := FirstPort(ports);
    }
  }

  // ---------- create ----------

  /** What came of sending a create to a storage server: none was up, sending or receiving failed, the
      server had shut down (0 bytes), it answered something else than YES, or YES. */
  datatype Reply = NoServer | Failed | Silent | Refused | Yes

  /** The strtok loop, seen from the cache: the trie only learns. */
  method InsertSynced(thp: Tries, cache: LRUCache, path1: Word, index: int, ports: LLHead)
    requires Synced(thp, cache) && ports !in thp.Repr && Located(thp.model, path1, ports)
    modifies thp.Repr
    ensures Synced(thp, cache) && ports !in thp.Repr && Located(thp.model, path1, ports)
    ensures thp.model == InsertAll(old(thp.model), ComponentPaths(path1), index)
    ensures forall w | w in ComponentPaths(path1) :: index in PortsOf(thp.model, w)
    ensures cache.model == old(cache.model) && cache.Repr == old(cache.Repr) && cache.now == old(cache.now)
    ensures fresh(thp.Repr - old(thp.Repr))
  {
    ghost var t, pairs := thp.model, Pairs(cache.model);
    ghost var u := InsertAll(t, ComponentPaths(path1), index);
    forall q ensures Within(PortsOf(t, q), PortsOf(u, q)) && (q in ComponentPaths(path1) ==> index in PortsOf(u, q)) {
      InsertAllPorts(t, ComponentPaths(path1), index, q);
    }
    cache.NodesOwned();
    InsertPath(thp, path1, index);
    assert cache.Ready();
    CoherentMonotone(t, u, pairs, pairs);
  }

  /** The list of a new path gets its one server. */
  method Fill(cache: LRUCache, path1: Word, ports: LLHead, index: int, ghost t: Trie)
    requires InStep(cache, t) && ports !in cache.Repr && index in PortsOf(t, path1)
    requires ports.items == [] && OnlyFor(Pairs(cache.model), path1, ports)
    modifies ports
    ensures InStep(cache, t) && ports.items == [index] && ports.currSize == 1
  {
    ghost var pairs := Pairs(cache.model);
    assert forall pl | pl in pairs && pl.1 != ports :: Located(t, pl.0, pl.1);
    ports.items := [index];
    ports.currSize := 1;
    assert cache.Ready();
    forall pl | pl in pairs ensures Located(t, pl.0, pl.1) {}
  }

  lemma FirstComponent(path1: Word)
    requires Normal(path1)
    ensures Tokens(path1, SLASH) != []
    ensures Tokens(path1, SLASH)[0] in ComponentPaths(path1) && path1 in ComponentPaths(path1)
  {
    RebuiltIs([], path1);
    ComponentPathsOfNormal(path1, path1);
    var key := Tokens(path1, SLASH)[0];
    assert PathsFrom([], Tokens(path1, SLASH))[0] == [] + key == key;
  }

  /** The end of a create that the server answered with YES. strtok has cut path1 down to its first
      component, so that is the key the list is cached for. */
  method Created(thp: Tries, cache: LRUCache, path1: Word, key: Word, index: int, ports: LLHead)
    requires Synced(thp, cache) && path1 in ComponentPaths(path1) && key in ComponentPaths(path1)
    requires Located(thp.model, path1, ports) && ports.items == [] && ports !in cache.Repr && ports !in thp.Repr
    requires OnlyFor(Pairs(cache.model), path1, ports)
    modifies thp.Repr, cache.Repr, ports
    ensures Synced(thp, cache) && ports.items == [index] && OthersKept(cache, ports)
    ensures fresh(thp.Repr - old(thp.Repr)) && fresh(cache.Repr - old(cache.Repr))
    ensures thp.model == InsertAll(old(thp.model), ComponentPaths(path1), index)
    ensures cache.model == L.Put(old(cache.model), cache.capacity, key, ports, old(cache.now))
    ensures cache.now == old(cache.now) + 1
  {
    InsertSynced(thp, cache, path1, index, ports);
    FillAndRemember(thp, cache, path1, key, ports, index);
  }

  method FillAndRemember(thp: Tries, cache: LRUCache, path1: Word, key: Word, ports: LLHead, index: int)
    requires Synced(thp, cache) && ports !in cache.Repr && ports !in thp.Repr
    requires index in PortsOf(thp.model, path1) && index in PortsOf(thp.model, key)
    requires ports.items == [] && OnlyFor(Pairs(cache.model), path1, ports)
    modifies cache.Repr, ports
    ensures Synced(thp, cache) && thp.model == old(thp.model) && thp.Repr == old(thp.Repr)
    ensures fresh(cache.Repr - old(cache.Repr)) && OthersKept(cache, ports) && ports.items == [index]
    ensures cache.model == L.Put(old(cache.model), cache.capacity, key, ports, old(cache.now))
    ensures cache.now == old(cache.now) + 1
  {
    FillAndCache(cache, path1, key, ports, index, thp.model);
    assert thp.Valid();
  }

  method FillAndCache(cache: LRUCache, path1: Word, key: Word, ports: LLHead, index: int, ghost t: Trie)
    requires InStep(cache, t) && ports !in cache.Repr
    requires index in PortsOf(t, path1) && index in PortsOf(t, key)
    requires ports.items == [] && OnlyFor(Pairs(cache.model), path1, ports)
    modifies cache.Repr, ports
    ensures InStep(cache, t) && fresh(cache.Repr - old(cache.Repr)) && ports !in cache.Repr
    ensures Pairs(cache.model) <= old(Pairs(cache.model)) + {(key, ports)} && ports.items == [index]
    ensures cache.model == L.Put(old(cache.model), cache.capacity, key, ports, old(cache.now))
    ensures cache.now == old(cache.now) + 1
  {
    Fill(cache, path1, ports, index, t);
    CacheList(cache, key, ports, t);
  }

  // ---------- an unanswered create ----------

  lemma PutHolds(c: L.Cache<LLHead>, capacity: nat, p: Word, lh: LLHead, now: nat)
    requires capacity > 0
    ensures (p, lh) in Pairs(L.Put(c, capacity, p, lh, now))
  {
    var i := L.Find(c, p);
    var d := L.Put(c, capacity, p, lh, now);
    if i == |c| {
      L.PutMakesRoom(c, capacity, p, lh, now);
    }
    assert d[|d| - 1].path == p && d[|d| - 1].lh == lh;
  }

  /** Every pair but those of lh is located; lh is cached for path only, and not empty. */
  ghost predicate AllBut(t: Trie, pairs: set<Pair>, path: Word, lh: LLHead)
    reads lh, set pl | pl in pairs :: pl.1
  {
    && lh.items != [] && WellSized(lh)
    && (forall pl | pl in pairs :: if pl.1 == lh then pl.0 == path else Located(t, pl.0, pl.1))
    && (forall pl, pm {:trigger Alone(pl, pm)} | pl in pairs && pm in pairs :: Alone(pl, pm))
  }

  lemma ButDecides(t: Trie, pairs: set<Pair>, path: Word, lh: LLHead)
    requires AllBut(t, pairs, path, lh) && (path, lh) in pairs
    ensures Coherent(t, pairs) <==> Within(lh.items, PortsOf(t, path))
  {
    if Coherent(t, pairs) {
      assert Located(t, path, lh);
    }
  }

  lemma ButFewer(t: Trie, pairs: set<Pair>, fewer: set<Pair>, path: Word, lh: LLHead)
    requires AllBut(t, pairs, path, lh) && fewer <= pairs + {(path, lh)}
    ensures AllBut(t, fewer, path, lh)
  {}

  /** The list gets its one server whether or not the trie knows it. */
  method FillBlindly(cache: LRUCache, path1: Word, ports: LLHead, index: int, ghost t: Trie)
    requires InStep(cache, t) && ports !in cache.Repr
    requires ports.items == [] && OnlyFor(Pairs(cache.model), path1, ports)
    modifies ports
    ensures cache.Ready() && AllBut(t, Pairs(cache.model), path1, ports) && ports.items == [index]
  {
    ghost var pairs := Pairs(cache.model);
    assert forall pl | pl in pairs && pl.1 != ports :: Located(t, pl.0, pl.1);
    ports.items := [index];
    ports.currSize := 1;
    assert cache.Ready();
  }

  method CacheBlindly(cache: LRUCache, path: Word, ports: LLHead, ghost t: Trie)
    requires cache.Ready() && cache.capacity >= 2 && ports !in cache.Repr
    requires forall pl | pl in Pairs(cache.model) :: pl.1 !in cache.Repr
    requires AllBut(t, Pairs(cache.model), path, ports)
    modifies cache.Repr
    ensures cache.Ready() && AllBut(t, Pairs(cache.model), path, ports) && (path, ports) in Pairs(cache.model)
    ensures cache.model == L.Put(old(cache.model), cache.capacity, path, ports, old(cache.now))
    ensures fresh(cache.Repr - old(cache.Repr)) && Pairs(cache.model) <= old(Pairs(cache.model)) + {(path, ports)}
  {
    ghost var pairs := Pairs(cache.model);
    PutPairs(cache.model, cache.capacity, path, ports, cache.now);
    PutHolds(cache.model, cache.capacity, path, ports, cache.now);
    cache.NodesOwned();
    cache.Put(path, ports);
    assert AllBut(t, pairs, path, ports);
    ButFewer(t, pairs, Pairs(cache.model), path, ports);
  }

  /** A create whose server has shut down caches the list all the same, for the whole path and without an
      insertion. The cache stays in step exactly when the trie already names that server for the path. */
  method Unanswered(cache: LRUCache, path1: Word, ports: LLHead, index: int, ghost t: Trie)
    requires InStep(cache, t) && ports !in cache.Repr
    requires ports.items == [] && OnlyFor(Pairs(cache.model), path1, ports)
    modifies cache.Repr, ports
    ensures cache.Ready() && (path1, ports) in Pairs(cache.model) && ports.items == [index]
    ensures cache.model == L.Put(old(cache.model), cache.capacity, path1, ports, old(cache.now))
    ensures Coherent(t, Pairs(cache.model)) <==> index in PortsOf(t, path1)
    ensures fresh(cache.Repr - old(cache.Repr)) && OthersKept(cache, ports)
  {
    FillBlindly(cache, path1, ports, index, t);
    CacheBlindly(cache, path1, ports, t);
    ButDecides(t, Pairs(cache.model), path1, ports);
  }

  /** Createfunctionality. */
  method Create(thp: Tries, cache: LRUCache, path1: Word, index: int, reply: Reply)
    returns (already: bool, ports: LLHead)
    requires Synced(thp, cache) && Normal(path1)
    modifies thp.Repr, cache.Repr, Lists(cache)
    ensures already <==> old(Known(thp, cache, path1)) != []
    ensures if !already && reply == Yes then
              Tokens(path1, SLASH) != [] && ports.items == [index] &&
              cache.model ==
                L.Put(old(Got(cache, path1)), cache.capacity, Tokens(path1, SLASH)[0], ports, Next(old(cache.now)))
            else if !already && reply == Silent then
              ports.items == [index] &&
              cache.model == L.Put(old(Got(cache, path1)), cache.capacity, path1, ports, Next(old(cache.now)))
            else cache.model == old(Got(cache, path1))
    ensures thp.model == if already || reply != Yes then old(thp.model)
                         else InsertAll(old(thp.model), ComponentPaths(path1), index)
    ensures already || reply != Silent ==> Synced(thp, cache)
    ensures fresh(thp.Repr - old(thp.Repr)) && fresh(cache.Repr - old(cache.Repr))
    ensures OthersKept(cache, ports) && (ports in old(Lists(cache)) || fresh(ports))
    ensures reply != Silent ==> cache.now == old(cache.now) + if !already && reply == Yes then 2 else 1
    ensures (already || (reply != Yes && reply != Silent)) && ports in old(Lists(cache)) ==>
              ports.items == old(ports.items)
    ensures !already && reply == Silent ==>
      cache.Ready() && (Coherent(thp.model, Pairs(cache.model)) <==> index in PortsOf(thp.model, path1))
  {
    var cached;
    ports, cached := Locate(thp, cache, path1);
    already := ports.currSize > 0;
    if !already {
      Answered(thp, cache, path1, index, reply, ports);
    }
  }

  /** What create does with the storage server's answer. */
  method Answered(thp: Tries, cache: LRUCache, path1: Word, index: int, reply: Reply, ports: LLHead)
    requires Synced(thp, cache) && Normal(path1) && ports !in cache.Repr && ports !in thp.Repr
    requires Located(thp.model, path1, ports) && ports.items == [] && OnlyFor(Pairs(cache.model), path1, ports)
    modifies thp.Repr, cache.Repr, ports
    ensures fresh(thp.Repr - old(thp.Repr)) && fresh(cache.Repr - old(cache.Repr)) && OthersKept(cache, ports)
    ensures reply == Yes ==> Tokens(path1, SLASH) != [] && ports.items == [index]
    ensures reply == Silent ==> ports.items == [index]
    ensures reply != Silent ==> cache.now == old(cache.now) + if reply == Yes then 1 else 0
    ensures reply != Yes && reply != Silent ==> ports.items == old(ports.items)
    ensures cache.model ==
      match reply
      case Yes => L.Put(old(cache.model), cache.capacity, Tokens(path1, SLASH)[0], ports, old(cache.now))
      case Silent => L.Put(old(cache.model), cache.capacity, path1, ports, old(cache.now))
      case _ => old(cache.model)
    ensures thp.model ==
      if reply == Yes then InsertAll(old(thp.model), ComponentPaths(path1), index) else old(thp.model)
    ensures if reply == Silent
            then cache.Ready() && (Coherent(thp.model, Pairs(cache.model)) <==> index in PortsOf(thp.model, path1))
            else Synced(thp, cache)
  {
    match reply {
      case Yes =>
        FirstComponent(path1);
        Created(thp, cache, path1, Tokens(path1, SLASH)[0], index, ports);
      case Silent => Unanswered(cache, path1, ports, index, thp.model);
      case _ =>
    }
  }

  /** Registration of a storage server with its listing. */
  method RegisterSynced(thp: Tries, cache: LRUCache, listing: Word, port: int)
    requires Synced(thp, cache)
    modifies thp.Repr
    ensures Synced(thp, cache) && thp.model == InsertAll(old(thp.model), Tokens(listing, NEWLINE), port)
    ensures fresh(thp.Repr - old(thp.Repr))
    ensures cache.model == old(cache.model) && cache.now == old(cache.now) && cache.Repr == old(cache.Repr)
  {
    ghost var t, pairs, ws := thp.model, Pairs(cache.model), Tokens(listing, NEWLINE);
    ghost var u := InsertAll(t, ws, port);
    forall q ensures Within(PortsOf(t, q), PortsOf(u, q)) {
      InsertAllPorts(t, ws, port, q);
    }
    cache.NodesOwned();
    Register(thp, listing, port);
    assert cache.Ready();
    CoherentMonotone(t, u, pairs, pairs);
  }

  // ---------- whole runs ----------

  /** Every server that a search finds, cached or not, is one that the trie names for the path. */
  lemma KnownIsNamed(thp: Tries, cache: LRUCache, path: Word)
    requires Synced(thp, cache)
    ensures Within(Known(thp, cache, path), PortsOf(thp.model, path))
  {
    GetPairs(cache.model, path, cache.now);
    ReversedWithin(PortsOf(thp.model, path));
    match L.GetResult(cache.model, path)
    case Some(lh) => HitIsOnlyFor(thp.model, Pairs(cache.model), path, lh);
    case None =>
  }

  /** server_initializer: an empty trie and an empty cache for ten paths. */
  method StartServer() returns (thp: Tries, cache: LRUCache)
    ensures Synced(thp, cache) && thp.model == EMPTY_TRIE && cache.model == [] && cache.now == 0 && cache.capacity == 10
    ensures fresh(thp.Repr) && fresh(cache.Repr)
  {
    thp := new Tries();
    cache := new LRUCache(10);
  }

  /** Also the cached list in every entry, found by searches or not: this is what Synced says at the end. */
  lemma CachedIsNamed(thp: Tries, cache: LRUCache, i: nat)
    requires Synced(thp, cache) && i < |cache.model|
    ensures Within(cache.model[i].lh.items, PortsOf(thp.model, cache.model[i].path))
  {
    assert (cache.model[i].path, cache.model[i].lh) in Pairs(cache.model);
    assert Located(thp.model, cache.model[i].path, cache.model[i].lh);
  }

  /** As long as trie and cache are in step, deletefile meets no missing node. */
  lemma InStepNeverMissing(thp: Tries, cache: LRUCache, path: Word)
    requires Synced(thp, cache) && FirstKnown(Known(thp, cache, path)) >= 0
    ensures path in thp.model
  {
    KnownIsNamed(thp, cache, path);
  }
}
