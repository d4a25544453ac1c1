/** Whole runs of creates, reads, writes, infos and registrations, with all that trie and cache hold in
    between. */
module NamingRuns {
  import opened Words
  import opened PathNames
  import opened TrieModel
  import opened TriesHeap
  import opened TrieReading
  import opened NamespaceModel
  import opened NamingTrie
  import L = LruModel
  import opened LruHeap
  import opened NamingServer

  datatype Request =
    | CreateRequest(path: Word, index: int, reply: Reply)
    | ReadRequest(path: Word)
    | WriteRequest(path: Word)
    | InfoRequest(path: Word)
    | Registration(listing: Word, port: int)

  /** Paths to be created are normalised, and storage servers answer every create. */
  ghost predicate Answerable(r: Request) {
    r.CreateRequest? ==> Normal(r.path) && r.reply != Silent
  }

  // ---------- the state between two requests ----------

  /** The trie, the cache with its clock, and the servers that every cached list names. */
  datatype Moment = Moment(trie: Trie, cache: L.Cache<LLHead>, now: nat, contents: map<LLHead, seq<int>>)

  ghost function Now(thp: Tries, cache: LRUCache): Moment
    reads thp, cache, Lists(cache)
  {
    Moment(thp.model, cache.model, cache.now, map lh | lh in Lists(cache) :: lh.items)
  }

  /** The servers that a search for the path finds. */
  ghost function KnownIn(m: Moment, path: Word): seq<int> {
    match L.GetResult(m.cache, path)
    case Some(lh) => if lh in m.contents then m.contents[lh] else []
    case None => Reversed(PortsOf(m.trie, path))
  }

  lemma KnownNow(thp: Tries, cache: LRUCache, path: Word)
    ensures KnownIn(Now(thp, cache), path) == Known(thp, cache, path)
  {
    GetPairs(cache.model, path, cache.now);
  }

  ghost predicate SameList(m: Moment, n: Moment, lh: LLHead) {
    lh in m.contents && lh in n.contents && n.contents[lh] == m.contents[lh]
  }

  /** The path was looked up in the cache, and no cached list changed. */
  ghost predicate LookedUp(m: Moment, path: Word, n: Moment) {
    && n.cache == L.Get(m.cache, path, m.now) && n.now == m.now + 1
    && forall lh {:trigger SameList(m, n, lh)} | lh in n.contents :: SameList(m, n, lh)
  }

  /** Then the list lh of the given servers was put for the key, and no other cached list changed. */
  ghost predicate PutList(m: Moment, path: Word, key: Word, items: seq<int>, capacity: nat, n: Moment, lh: LLHead) {
    && n.cache == L.Put(L.Get(m.cache, path, m.now), capacity, key, lh, Next(m.now)) && n.now == m.now + 2
    && lh in n.contents && n.contents[lh] == items
    && forall l {:trigger SameList(m, n, l)} | l in n.contents && l != lh :: SameList(m, n, l)
  }

  ghost predicate Stored(m: Moment, path: Word, key: Word, items: seq<int>, capacity: nat, n: Moment) {
    exists lh | lh in n.contents :: PutList(m, path, key, items, capacity, n, lh)
  }

  /** What a request sees and does. The servers it finds are named by the trie, and the one it picks is the first
      of them. The trie learns from an acknowledged create of an unknown path and from a registration only; the
      cache changes as the handler says. */
  ghost predicate Served(m: Moment, r: Request, capacity: nat, picked: int, n: Moment) {
    match r
    case CreateRequest(path, index, reply) =>
      && Named(m, path)
      && if KnownIn(m, path) == [] && reply == Yes then
           && n.trie == InsertAll(m.trie, ComponentPaths(path), index)
           && Tokens(path, SLASH) != [] && Stored(m, path, Tokens(path, SLASH)[0], [index], capacity, n)
         else
           n.trie == m.trie && LookedUp(m, path, n)
    case ReadRequest(path) =>
      && Named(m, path) && n.trie == m.trie && picked == FirstKnown(KnownIn(m, path))
      && if KnownIn(m, path) == [] then LookedUp(m, path, n)
         else Stored(m, path, path, KnownIn(m, path), capacity, n)
    case Registration(listing, port) =>
      n == m.(trie := InsertAll(m.trie, Tokens(listing, NEWLINE), port))
    case _ =>
      && Named(m, r.path) && n.trie == m.trie && picked == FirstKnown(KnownIn(m, r.path))
      && if L.GetResult(m.cache, r.path).Some? then LookedUp(m, r.path, n)
         else Stored(m, r.path, r.path, KnownIn(m, r.path), capacity, n)
  }

  /** A search for the path finds no server that the trie does not name for it. */
  ghost predicate Named(m: Moment, path: Word) {
    Within(KnownIn(m, path), PortsOf(m.trie, path))
  }

  lemma NamedNow(thp: Tries, cache: LRUCache, path: Word)
    requires Synced(thp, cache)
    ensures Named(Now(thp, cache), path)
  {
    KnownNow(thp, cache, path);
    KnownIsNamed(thp, cache, path);
  }

  // ---------- one request ----------

  /** Every cached list but one was cached at the moment m, and names the same servers. */
  ghost predicate OthersAt(m: Moment, cache: LRUCache, ports: LLHead)
    reads cache, Lists(cache)
  {
    forall lh | lh in Lists(cache) && lh != ports :: lh in m.contents && lh.items == m.contents[lh]
  }

  /** After the moment m the cache is the one that a look-up got, and only the list ports can have changed, to what
      it was; or that list was put for the key. */
  ghost predicate Looked(m: Moment, cache: LRUCache, got: L.Cache<LLHead>, ports: LLHead)
    reads cache, Lists(cache), ports
  {
    && cache.model == got && cache.now == m.now + 1
    && OthersAt(m, cache, ports) && (ports in m.contents ==> ports.items == m.contents[ports])
    && m.contents.Keys == set pl | pl in Pairs(m.cache) :: pl.1
  }

  ghost predicate Cached(m: Moment, cache: LRUCache, got: L.Cache<LLHead>, key: Word, ports: LLHead)
    reads cache, Lists(cache)
  {
    && cache.capacity > 0 && OthersAt(m, cache, ports)
    && cache.model == L.Put(got, cache.capacity, key, ports, Next(m.now))
    && cache.now == m.now + 2
  }

  /** After a look-up alone the cached lists are among those of before. */
  lemma LookUpNow(m: Moment, thp: Tries, cache: LRUCache, path: Word, ports: LLHead)
    requires Looked(m, cache, L.Get(m.cache, path, m.now), ports)
    ensures LookedUp(m, path, Now(thp, cache))
  {
    GetPairs(m.cache, path, m.now);
    var n := Now(thp, cache);
    forall lh | lh in n.contents ensures SameList(m, n, lh) {
      assert lh in m.contents;
    }
  }

  lemma PutNow(m: Moment, thp: Tries, cache: LRUCache, path: Word, key: Word, ports: LLHead)
    requires Cached(m, cache, L.Get(m.cache, path, m.now), key, ports)
    ensures Stored(m, path, key, ports.items, cache.capacity, Now(thp, cache))
  {
    PutHolds(L.Get(m.cache, path, m.now), cache.capacity, key, ports, Next(m.now));
    var n := Now(thp, cache);
    assert (key, ports) in Pairs(cache.model);
    forall l | l in n.contents && l != ports ensures SameList(m, n, l) {}
    assert PutList(m, path, key, ports.items, cache.capacity, n, ports);
  }

  method CreateAt(thp: Tries, cache: LRUCache, r: Request, ghost m: Moment, ghost got: L.Cache<LLHead>)
    returns (created: bool, ports: LLHead)
    requires Synced(thp, cache) && r.CreateRequest? && Answerable(r)
    requires m == Now(thp, cache) && got == Got(cache, r.path)
    modifies thp.Repr, cache.Repr, Lists(cache)
    ensures Synced(thp, cache) && fresh(thp.Repr - old(thp.Repr)) && fresh(cache.Repr - old(cache.Repr))
    ensures fresh(Lists(cache) - old(Lists(cache)))
    ensures created <==> KnownIn(m, r.path) == [] && r.reply == Yes
    ensures thp.model == if created then InsertAll(m.trie, ComponentPaths(r.path), r.index) else m.trie
    ensures if created then
              && Tokens(r.path, SLASH) != [] && ports.items == [r.index]
              && Cached(m, cache, got, Tokens(r.path, SLASH)[0], ports)
            else Looked(m, cache, got, ports)
  {
    KnownNow(thp, cache, r.path);
    var already;
    already, ports := Create(thp, cache, r.path, r.index, r.reply);
    created := !already && r.reply == Yes;
  }

  method ServeCreate(thp: Tries, cache: LRUCache, r: Request, ghost m: Moment)
    requires Synced(thp, cache) && r.CreateRequest? && Answerable(r) && m == Now(thp, cache)
    modifies thp.Repr, cache.Repr, Lists(cache)
    ensures Synced(thp, cache) && fresh(thp.Repr - old(thp.Repr)) && fresh(cache.Repr - old(cache.Repr))
    ensures fresh(Lists(cache) - old(Lists(cache)))
    ensures Served(m, r, cache.capacity, -1, Now(thp, cache))
  {
    NamedNow(thp, cache, r.path);
    var created, ports := CreateAt(thp, cache, r, m, L.Get(m.cache, r.path, m.now));
    if created {
      PutNow(m, thp, cache, r.path, Tokens(r.path, SLASH)[0], ports);
    } else {
      LookUpNow(m, thp, cache, r.path, ports);
    }
  }

  method ReadAt(thp: Tries, cache: LRUCache, path: Word, ghost m: Moment, ghost got: L.Cache<LLHead>)
    returns (picked: int, ports: LLHead)
    requires Synced(thp, cache) && m == Now(thp, cache) && got == Got(cache, path)
    modifies thp.Repr, cache.Repr, Lists(cache)
    ensures Synced(thp, cache) && fresh(thp.Repr - old(thp.Repr)) && fresh(cache.Repr - old(cache.Repr))
    ensures fresh(Lists(cache) - old(Lists(cache)))
    ensures thp.model == m.trie && ports.items == KnownIn(m, path) && picked == FirstKnown(ports.items)
    ensures if ports.items == [] then Looked(m, cache, got, ports) else Cached(m, cache, got, path, ports)
  {
    KnownNow(thp, cache, path);
    picked, ports := Read(thp, cache, path);
  }

  method ServeRead(thp: Tries, cache: LRUCache, r: Request, ghost m: Moment) returns (picked: int)
    requires Synced(thp, cache) && r.ReadRequest? && m == Now(thp, cache)
    modifies thp.Repr, cache.Repr, Lists(cache)
    ensures Synced(thp, cache) && fresh(thp.Repr - old(thp.Repr)) && fresh(cache.Repr - old(cache.Repr))
    ensures fresh(Lists(cache) - old(Lists(cache)))
    ensures Served(m, r, cache.capacity, picked, Now(thp, cache))
  {
    NamedNow(thp, cache, r.path);
    var ports;
    picked, ports := ReadAt(thp, cache, r.path, m, L.Get(m.cache, r.path, m.now));
    if ports.items == [] {
      LookUpNow(m, thp, cache, r.path, ports);
    } else {
      PutNow(m, thp, cache, r.path, r.path, ports);
    }
  }

  method WriteAt(thp: Tries, cache: LRUCache, path: Word, ghost m: Moment, ghost got: L.Cache<LLHead>)
    returns (picked: int, ports: LLHead)
    requires Synced(thp, cache) && m == Now(thp, cache) && got == Got(cache, path)
    modifies thp.Repr, cache.Repr, Lists(cache)
    ensures Synced(thp, cache) && fresh(thp.Repr - old(thp.Repr)) && fresh(cache.Repr - old(cache.Repr))
    ensures fresh(Lists(cache) - old(Lists(cache)))
    ensures thp.model == m.trie && ports.items == KnownIn(m, path) && picked == FirstKnown(ports.items)
    ensures if L.GetResult(m.cache, path).Some? then Looked(m, cache, got, ports)
            else Cached(m, cache, got, path, ports)
  {
    KnownNow(thp, cache, path);
    picked, ports := Write(thp, cache, path);
  }

  method ServeWrite(thp: Tries, cache: LRUCache, r: Request, ghost m: Moment) returns (picked: int)
    requires Synced(thp, cache) && (r.WriteRequest? || r.InfoRequest?) && m == Now(thp, cache)
    modifies thp.Repr, cache.Repr, Lists(cache)
    ensures Synced(thp, cache) && fresh(thp.Repr - old(thp.Repr)) && fresh(cache.Repr - old(cache.Repr))
    ensures fresh(Lists(cache) - old(Lists(cache)))
    ensures Served(m, r, cache.capacity, picked, Now(thp, cache))
  {
    NamedNow(thp, cache, r.path);
    var ports;
    picked, ports := WriteAt(thp, cache, r.path, m, L.Get(m.cache, r.path, m.now));
    if L.GetResult(m.cache, r.path).Some? {
      LookUpNow(m, thp, cache, r.path, ports);
    } else {
      PutNow(m, thp, cache, r.path, r.path, ports);
    }
  }

  method ServeRegistration(thp: Tries, cache: LRUCache, r: Request, ghost m: Moment)
    requires Synced(thp, cache) && r.Registration? && m == Now(thp, cache)
    modifies thp.Repr, cache.Repr, Lists(cache)
    ensures Synced(thp, cache) && fresh(thp.Repr - old(thp.Repr)) && fresh(cache.Repr - old(cache.Repr))
    ensures fresh(Lists(cache) - old(Lists(cache)))
    ensures Served(m, r, cache.capacity, -1, Now(thp, cache))
  {
    RegisterSynced(thp, cache, r.listing, r.port);
    assert Now(thp, cache).contents == m.contents;
  }

  /** All that a handler may change. */
  ghost function Owned(thp: Tries, cache: LRUCache): set<object>
    reads thp, cache
  {
    thp.Repr + cache.Repr + Lists(cache)
  }

  method ServeOne(thp: Tries, cache: LRUCache, r: Request, ghost m: Moment) returns (picked: int)
    requires Synced(thp, cache) && Answerable(r) && m == Now(thp, cache)
    modifies Owned(thp, cache)
    ensures Synced(thp, cache) && fresh(Owned(thp, cache) - old(Owned(thp, cache)))
    ensures Served(m, r, cache.capacity, picked, Now(thp, cache))
  {
    picked := -1;
    match r {
      case CreateRequest(_, _, _) => ServeCreate(thp, cache, r, m);
      case ReadRequest(_) => picked := ServeRead(thp, cache, r, m);
      case Registration(_, _) => ServeRegistration(thp, cache, r, m);
      case _ => picked := ServeWrite(thp, cache, r, m);
    }
  }

  // ---------- whole runs ----------

  ghost predicate ServedAt(moments: seq<Moment>, requests: seq<Request>, capacity: nat, picked: seq<int>, k: nat)
    requires k < |requests| && k < |picked| && k + 1 < |moments|
  {
    Served(moments[k], requests[k], capacity, picked[k], moments[k + 1])
  }

  /** What the first requests picked, and the moments before, between and after them. */
  ghost predicate Log(moments: seq<Moment>, requests: seq<Request>, capacity: nat, picked: seq<int>) {
    && |picked| <= |requests| && |moments| == |picked| + 1
    && forall k {:trigger ServedAt(moments, requests, capacity, picked, k)} | 0 <= k < |picked| ::
      ServedAt(moments, requests, capacity, picked, k)
  }

  lemma LogGrows(moments: seq<Moment>, requests: seq<Request>, capacity: nat, picked: seq<int>, x: int, n: Moment)
    requires Log(moments, requests, capacity, picked) && |picked| < |requests|
    requires Served(moments[|picked|], requests[|picked|], capacity, x, n)
    ensures Log(moments + [n], requests, capacity, picked + [x])
  {
    forall k | 0 <= k < |picked| + 1 ensures ServedAt(moments + [n], requests, capacity, picked + [x], k) {
      if k < |picked| {
        assert ServedAt(moments, requests, capacity, picked, k);
      }
    }
  }

  /** In every run of creates, reads, writes, infos and registrations in which storage servers answer
      every create, no search ever finds a server that the trie does not name for the path, and trie and
      cache are in step at the end. */
  method Serve(thp: Tries, cache: LRUCache, requests: seq<Request>)
    returns (picked: seq<int>, ghost moments: seq<Moment>)
    requires Synced(thp, cache) && forall r | r in requests :: Answerable(r)
    modifies Owned(thp, cache)
    ensures Synced(thp, cache)
    ensures Log(moments, requests, cache.capacity, picked) && |picked| == |requests|
    ensures moments[0] == old(Now(thp, cache)) && moments[|requests|] == Now(thp, cache)
  {
    picked, moments := [], [Now(thp, cache)];
    for i := 0 to |requests|
      invariant Synced(thp, cache) && fresh(Owned(thp, cache) - old(Owned(thp, cache)))
      invariant Log(moments, requests, cache.capacity, picked) && |picked| == i
      invariant moments[0] == old(Now(thp, cache)) && moments[i] == Now(thp, cache)
    {
      var index := ServeOne(thp, cache, requests[i], moments[i]);
      LogGrows(moments, requests, cache.capacity, picked, index, Now(thp, cache));
      picked, moments := picked + [index], moments + [Now(thp, cache)];
    }
  }

  const EMPTY := Moment(EMPTY_TRIE, [], 0, map[])

  /** The same from the start of the server. */
  method Session(requests: seq<Request>)
    returns (picked: seq<int>, ghost moments: seq<Moment>)
    requires forall r | r in requests :: Answerable(r)
    ensures Log(moments, requests, 10, picked) && |picked| == |requests| && moments[0] == EMPTY
  {
    var thp, cache := StartServer();
    assert Now(thp, cache).contents == map[];
    picked, moments := Serve(thp, cache, requests);
  }

  /** So a server that was picked for a path is always one that the trie named for it at the time. */
  lemma PickedIsNamed(moments: seq<Moment>, requests: seq<Request>, capacity: nat, picked: seq<int>, k: nat)
    requires Log(moments, requests, capacity, picked) && k < |picked|
    requires !requests[k].CreateRequest? && !requests[k].Registration? && picked[k] != -1
    ensures picked[k] in PortsOf(moments[k].trie, requests[k].path)
  {
    assert ServedAt(moments, requests, capacity, picked, k);
  }
}
