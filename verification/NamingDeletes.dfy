/** The handlers of deletedir and deletefile: every path they delete from the trie leaves the cache as well. */
module NamingDeletes {
  import opened Words
  import opened TrieModel
  import opened TrieWalk
  import opened TriesHeap
  import opened TrieReading
  import opened NamespaceModel
  import opened NamingTrie
  import L = LruModel
  import opened LruHeap
  import opened NamingServer

  // ---------- removals from the cache ----------

  /** Some hash slot is out of order, and stays so as long as nobody touches the cache. */
  ghost predicate Damaged(cache: LRUCache)
    reads cache, cache.hashMap
  {
    && cache.hashMap.Length == 31
    && exists h {:trigger cache.SlotOk(h)} | 0 <= h < 31 :: !cache.SlotOk(h)
  }

  /** The paths ws have been removed in turn from the cache that was c; intact says whether all removals left
      the hash slots in order. */
  ghost predicate Removing(cache: LRUCache, c: L.Cache<LLHead>, ws: seq<Word>, intact: bool)
    reads cache, cache.Repr, cache.hashMap, cache.list
  {
    && (intact <==> L.AdmitsAll(c, ws))
    && cache in cache.Repr && cache.hashMap in cache.Repr && (forall n | n in cache.list :: n in cache.Repr)
    && (if intact then cache.Ready() && cache.model == L.RemovedAll(c, ws) else Damaged(cache))
  }

  /** removeForDelete inside a command. Once the slots are out of order the cache is left alone. */
  method Forget(cache: LRUCache, path: Word, intact: bool, ghost c: L.Cache<LLHead>, ghost ws: seq<Word>)
    returns (still: bool, lh: LLHead?)
    requires Removing(cache, c, ws, intact)
    modifies cache.Repr
    ensures Removing(cache, c, ws + [path], still) && cache.Repr == old(cache.Repr)
    ensures intact ==> match L.GetResult(L.RemovedAll(c, ws), path) case Some(v) => lh == v case None => lh == null
  {
    L.OneMore(c, ws, path);
    still, lh := intact, null;
    if intact {
      cache.NodesOwned();
      still := cache.CanRemove(path);
      lh := cache.RemoveForDelete(path);
    }
  }

  /** The trie keeps out of it. */
  method ForgetBeside(thp: Tries, cache: LRUCache, path: Word, intact: bool, ghost c: L.Cache<LLHead>,
                      ghost ws: seq<Word>)
    returns (still: bool, lh: LLHead?)
    requires thp.Valid() && thp.Repr !! cache.Repr && Removing(cache, c, ws, intact)
    modifies cache.Repr
    ensures Removing(cache, c, ws + [path], still) && cache.Repr == old(cache.Repr)
    ensures intact ==> match L.GetResult(L.RemovedAll(c, ws), path) case Some(v) => lh == v case None => lh == null
    ensures thp.Valid() && thp.model == old(thp.model) && thp.nodes == old(thp.nodes) && thp.Repr == old(thp.Repr)
  {
    still, lh := Forget(cache, path, intact, c, ws);
  }

  // ---------- deletedir ----------

  /** One round of the drain, in the trie: the entry found from junk on is deleted. */
  method DeleteNext(thp: Tries, junk: Word, dummy: Word, ghost t: Trie, ghost m: Bag, ghost m1: Bag)
    requires thp.Valid() && Fits(thp.model, BUFFER) && dummy == NextEntry(thp.model, junk)
    requires Draining(t, m, junk, thp.model, m1) && Below(m1, junk) > 0
    modifies thp.Repr
    ensures thp.Valid() && Fits(thp.model, BUFFER) && thp.Repr <= old(thp.Repr)
    ensures dummy in m1 && thp.model == Delete(old(thp.model), dummy)
    ensures Draining(t, m, junk, thp.model, m1 - multiset{dummy})
    ensures Below(m1 - multiset{dummy}, junk) == Below(m1, junk) - 1
    ensures forall q | q in thp.nodes :: q in old(thp.nodes) && thp.nodes[q] == old(thp.nodes)[q]
  {
    NextEntryOutstanding(thp.model, m1, junk);
    DrainStep(t, m, junk, thp.model, m1, dummy);
    OutstandingLinked(thp.model, m1, dummy, dummy);
    DeleteNode(thp, dummy, m1);
  }

  /** The entry found from junk on is copied and removed from the cache. */
  method ForgetNext(thp: Tries, cache: LRUCache, junk: Word, intact: bool, ghost c: L.Cache<LLHead>,
                    ghost ws: seq<Word>)
    returns (still: bool, dummy: Word)
    requires thp.Valid() && Fits(thp.model, BUFFER) && thp.Repr !! cache.Repr && Removing(cache, c, ws, intact)
    modifies cache.Repr
    ensures thp.Valid() && thp.model == old(thp.model) && thp.nodes == old(thp.nodes) && thp.Repr == old(thp.Repr)
    ensures dummy == NextEntry(thp.model, junk)
    ensures Removing(cache, c, ws + [dummy], still) && cache.Repr == old(cache.Repr)
  {
    dummy := NextEntryOf(thp, junk);
    var lh;
    still, lh := ForgetBeside(thp, cache, dummy, intact, c, ws);
  }

  /** One round of the drain: the entry found from junk on is copied, removed from the cache and deleted. */
  method DrainOne(thp: Tries, cache: LRUCache, junk: Word, intact: bool, ghost c: L.Cache<LLHead>,
                  ghost ws: seq<Word>, ghost t: Trie, ghost m: Bag, ghost m1: Bag)
    returns (still: bool, ghost w: Word)
    requires thp.Valid() && Fits(thp.model, BUFFER) && thp.Repr !! cache.Repr && Removing(cache, c, ws, intact)
    requires Draining(t, m, junk, thp.model, m1) && Below(m1, junk) > 0
    modifies thp.Repr, cache.Repr
    ensures thp.Valid() && Fits(thp.model, BUFFER) && thp.Repr <= old(thp.Repr) && cache.Repr == old(cache.Repr)
    ensures w == NextEntry(old(thp.model), junk) && w in m1 && thp.model == Delete(old(thp.model), w)
    ensures Removing(cache, c, ws + [w], still)
    ensures Draining(t, m, junk, thp.model, m1 - multiset{w})
    ensures Below(m1 - multiset{w}, junk) == Below(m1, junk) - 1
    ensures forall q | q in thp.nodes :: q in old(thp.nodes) && thp.nodes[q] == old(thp.nodes)[q]
  {
    var dummy;
    still, dummy := ForgetNext(thp, cache, junk, intact, c, ws);
    w := dummy;
    DeleteNext(thp, junk, dummy, t, m, m1);
  }

  /** Of all the words that the drain finds, ws have been found and n are left. */
  ghost predicate LeftOver(ws: seq<Word>, t1: Trie, d: Word, n: nat, all: seq<Word>) {
    ws + DrainWords(t1, d, n) == all
  }

  ghost predicate Taken(ws: seq<Word>, m: Bag, m1: Bag) {
    m1 == m - multiset(ws) && multiset(ws) <= m
  }

  /** The words found so far, and the n that are still to be found. */
  ghost predicate Found(ws: seq<Word>, all: seq<Word>, d: Word, t1: Trie, n: nat, m: Bag, m1: Bag) {
    Taken(ws, m, m1) && LeftOver(ws, t1, d, n, all) && Below(m1, d) == n
  }

  lemma FoundOne(ws: seq<Word>, all: seq<Word>, d: Word, t1: Trie, n: nat, m: Bag, m1: Bag, w: Word)
    requires Found(ws, all, d, t1, n, m, m1) && n > 0 && w == NextEntry(t1, d) && w in m1 && d <= w
    ensures Found(ws + [w], all, d, Delete(t1, w), n - 1, m, m1 - multiset{w})
  {
    BelowRemove(m1, w, d);
    LeftOne(ws, t1, d, n, all);
    TakenOne(ws, m, m1, w);
  }

  lemma LeftOne(ws: seq<Word>, t1: Trie, d: Word, n: nat, all: seq<Word>)
    requires n > 0 && LeftOver(ws, t1, d, n, all)
    ensures var w := NextEntry(t1, d); LeftOver(ws + [w], Delete(t1, w), d, n - 1, all)
  {
    var w := NextEntry(t1, d);
    var later := DrainWords(Delete(t1, w), d, n - 1);
    assert DrainWords(t1, d, n) == [w] + later;
    MoveOver(ws, w, later);
  }

  lemma MoveOver(ws: seq<Word>, w: Word, later: seq<Word>)
    ensures ws + ([w] + later) == ws + [w] + later
  {}

  lemma TakenOne(ws: seq<Word>, m: Bag, m1: Bag, w: Word)
    requires Taken(ws, m, m1) && w in m1
    ensures Taken(ws + [w], m, m1 - multiset{w})
  {
    assert multiset(ws + [w]) == multiset(ws) + multiset{w};
  }

  /** The drain loop of deletedir; D is the node of the directory's slash. */
  method Drain(thp: Tries, cache: LRUCache, D: TrieNode, junk: Word, ghost c: L.Cache<LLHead>, ghost m: Bag)
    returns (intact: bool, ghost ws: seq<Word>)
    requires thp.Valid() && Fits(thp.model, BUFFER) && Counts(thp.model, m) && thp.Repr !! cache.Repr
    requires junk != [] && junk in thp.nodes && D == thp.nodes[junk] && Removing(cache, c, [], true)
    modifies thp.Repr, cache.Repr
    ensures thp.Valid() && Fits(thp.model, BUFFER) && thp.Repr <= old(thp.Repr) && cache.Repr == old(cache.Repr)
    ensures ws == DrainWords(old(thp.model), junk, Below(m, junk)) && multiset(ws) <= m
    ensures Drained(old(thp.model), m, junk, thp.model, m - multiset(ws)) && Removing(cache, c, ws, intact)
  {
    ghost var t, m1, n := thp.model, m, Below(m, junk);
    ghost var all := DrainWords(t, junk, n);
    intact, ws := true, [];
    assert thp.Owns(junk) && thp.Matches(junk);
    while D.count > 1
      invariant thp.Valid() && Fits(thp.model, BUFFER) && thp.Repr <= old(thp.Repr) && cache.Repr == old(cache.Repr)
      invariant junk in thp.nodes && D == thp.nodes[junk] && D in thp.Repr && D.count == n >= 1
      invariant Draining(t, m, junk, thp.model, m1) && Found(ws, all, junk, thp.model, n, m, m1)
      invariant Removing(cache, c, ws, intact)
      decreases D.count
    {
      intact, ws, m1 := DrainRound(thp, cache, D, junk, intact, c, ws, all, n, t, m, m1);
      n := n - 1;
    }
    intact, ws, m1 := DrainLast(thp, cache, junk, intact, c, ws, all, n, t, m, m1);
    DrainEnd(t, m, junk, thp.model, m1);
  }

  method DrainLast(thp: Tries, cache: LRUCache, junk: Word, intact: bool, ghost c: L.Cache<LLHead>,
                   ghost ws: seq<Word>, ghost all: seq<Word>, ghost n: nat, ghost t: Trie, ghost m: Bag, ghost m1: Bag)
    returns (still: bool, ghost ws': seq<Word>, ghost m2: Bag)
    requires thp.Valid() && Fits(thp.model, BUFFER) && thp.Repr !! cache.Repr && Removing(cache, c, ws, intact)
    requires Draining(t, m, junk, thp.model, m1) && Found(ws, all, junk, thp.model, n, m, m1) && n > 0
    modifies thp.Repr, cache.Repr
    ensures thp.Valid() && Fits(thp.model, BUFFER) && thp.Repr <= old(thp.Repr) && cache.Repr == old(cache.Repr)
    ensures Removing(cache, c, ws', still) && Found(ws', all, junk, thp.model, n - 1, m, m2)
    ensures Draining(t, m, junk, thp.model, m2)
    ensures forall q | q in thp.nodes :: q in old(thp.nodes) && thp.nodes[q] == old(thp.nodes)[q]
  {
    ghost var w;
    ghost var t1 := thp.model;
    NextEntryOutstanding(t1, m1, junk);
    still, w := DrainOne(thp, cache, junk, intact, c, ws, t, m, m1);
    FoundOne(ws, all, junk, t1, n, m, m1, w);
    ws', m2 := ws + [w], m1 - multiset{w};
  }

  /** The body of the loop; D stays linked because something is left below it. */
  method DrainRound(thp: Tries, cache: LRUCache, D: TrieNode, junk: Word, intact: bool, ghost c: L.Cache<LLHead>,
                    ghost ws: seq<Word>, ghost all: seq<Word>, ghost n: nat, ghost t: Trie, ghost m: Bag, ghost m1: Bag)
    returns (still: bool, ghost ws': seq<Word>, ghost m2: Bag)
    requires thp.Valid() && Fits(thp.model, BUFFER) && thp.Repr !! cache.Repr && Removing(cache, c, ws, intact)
    requires Draining(t, m, junk, thp.model, m1) && Found(ws, all, junk, thp.model, n, m, m1)
    requires n > 1 && junk in thp.nodes && D == thp.nodes[junk]
    modifies thp.Repr, cache.Repr
    ensures thp.Valid() && Fits(thp.model, BUFFER) && thp.Repr <= old(thp.Repr) && cache.Repr == old(cache.Repr)
    ensures Removing(cache, c, ws', still) && Found(ws', all, junk, thp.model, n - 1, m, m2)
    ensures Draining(t, m, junk, thp.model, m2)
    ensures junk in thp.nodes && D == thp.nodes[junk] && D in thp.Repr && D.count == n - 1
  {
    still, ws', m2 := DrainLast(thp, cache, junk, intact, c, ws, all, n, t, m, m1);
    assert thp.Owns(junk) && thp.Matches(junk);
  }

  /** Everything that deletedir removes behind the slash of the path. */
  method DrainDir(thp: Tries, cache: LRUCache, path1: Word, ghost c: L.Cache<LLHead>, ghost m: Bag)
    returns (intact: bool, ghost ws: seq<Word>)
    requires thp.Valid() && Fits(thp.model, BUFFER) && Counts(thp.model, m) && path1 in thp.model
    requires thp.Repr !! cache.Repr && Removing(cache, c, [], true)
    modifies thp.Repr, cache.Repr
    ensures thp.Valid() && Fits(thp.model, BUFFER) && thp.Repr <= old(thp.Repr) && cache.Repr == old(cache.Repr)
    ensures ws == DrainWords(old(thp.model), path1 + [SLASH], Below(m, path1 + [SLASH])) && multiset(ws) <= m
    ensures Drained(old(thp.model), m, path1 + [SLASH], thp.model, m - multiset(ws))
    ensures Removing(cache, c, ws, intact)
  {
    var junk := path1 + [SLASH];
    var tp := Find(thp, path1);
    Slot(thp, path1, SLASH as int);
    if tp.alpha[SLASH as int] != null {
      intact, ws := Drain(thp, cache, tp.alpha[SLASH as int], junk, c, m);
    } else {
      intact, ws := true, [];
      assert m - multiset(ws) == m;
      DrainEnd(thp.model, m, junk, thp.model, m);
    }
  }

  /** Deletedirfunctionality: refuse a path without ports; otherwise drain what lies behind its slash and
      delete the directory itself once. t1 is the trie after the drain, and ws the paths that are removed from
      cache and trie, in order, before the directory. The source does not ask whether the directory is still
      linked then; when it is not, the delete meets a missing node. */
  method DeleteDir(thp: Tries, cache: LRUCache, path1: Word, ghost m: Bag)
    returns (found: bool, crashed: bool, intact: bool, ghost t1: Trie, ghost ws: seq<Word>)
    requires thp.Valid() && Fits(thp.model, BUFFER) && Counts(thp.model, m) && path1 != []
    requires cache.Ready() && thp.Repr !! cache.Repr
    modifies thp.Repr, cache.Repr
    ensures thp.Valid() && Fits(thp.model, BUFFER) && thp.Repr <= old(thp.Repr) && cache.Repr == old(cache.Repr)
    ensures found <==> HasPorts(old(thp.model), path1)
    ensures !found ==> !crashed && thp.model == old(thp.model) && Removing(cache, old(cache.model), [], intact)
    ensures found ==> ws == DrainWords(old(thp.model), path1 + [SLASH], Below(m, path1 + [SLASH])) && multiset(ws) <= m
    ensures found ==> Drained(old(thp.model), m, path1 + [SLASH], t1, m - multiset(ws))
    ensures found ==> Removing(cache, old(cache.model), ws + [path1], intact)
    ensures found ==> (crashed <==> forall x | x in m && path1 <= x :: path1 + [SLASH] <= x)
    ensures found ==> thp.model == if crashed then t1 else DeleteLinked(t1, path1)
    ensures found && path1 in m ==>
      !crashed && DirDeleted(old(thp.model), m, path1, thp.model, m - multiset(ws) - multiset{path1})
  {
    ghost var t, c := thp.model, cache.model;
    ws, t1, crashed, intact := [], t, false, true;
    cache.NodesOwned();
    found := HasServer(thp, path1);
    if found {
      intact, ws := DrainDir(thp, cache, path1, c, m);
      t1 := thp.model;
      StaysLinked(t, m, path1, t1, m - multiset(ws));
      if path1 in m {
        DirDeletedFrom(t, m, path1, t1, m - multiset(ws));
      }
      intact, crashed := DeleteSelf(thp, cache, path1, intact, c, ws, m - multiset(ws));
    }
  }

  /** The end of deletedir: the directory itself. */
  method DeleteSelf(thp: Tries, cache: LRUCache, path1: Word, intact: bool, ghost c: L.Cache<LLHead>,
                    ghost ws: seq<Word>, ghost m: Bag)
    returns (still: bool, missing: bool)
    requires thp.Valid() && Fits(thp.model, BUFFER) && Counts(thp.model, m)
    requires thp.Repr !! cache.Repr && Removing(cache, c, ws, intact)
    modifies thp.Repr, cache.Repr
    ensures thp.Valid() && Fits(thp.model, BUFFER) && thp.Repr <= old(thp.Repr) && cache.Repr == old(cache.Repr)
    ensures Removing(cache, c, ws + [path1], still)
    ensures missing <==> path1 !in old(thp.model)
    ensures thp.model == if missing then old(thp.model) else DeleteLinked(old(thp.model), path1)
    ensures path1 in m ==> !missing && thp.model == Delete(old(thp.model), path1)
  {
    var lh;
    still, lh := ForgetBeside(thp, cache, path1, intact, c, ws);
    missing := DeleteOnceBeside(thp, cache, path1, still, c, ws + [path1], m);
  }

  /** The cache keeps out of it. */
  method DeleteOnceBeside(thp: Tries, cache: LRUCache, path1: Word, intact: bool, ghost c: L.Cache<LLHead>,
                          ghost ws: seq<Word>, ghost m: Bag)
    returns (missing: bool)
    requires thp.Valid() && Fits(thp.model, BUFFER) && Counts(thp.model, m)
    requires thp.Repr !! cache.Repr && Removing(cache, c, ws, intact)
    modifies thp.Repr
    ensures thp.Valid() && Fits(thp.model, BUFFER) && thp.Repr <= old(thp.Repr) && cache.Repr == old(cache.Repr)
    ensures Removing(cache, c, ws, intact)
    ensures missing <==> path1 !in old(thp.model)
    ensures thp.model == if missing then old(thp.model) else DeleteLinked(old(thp.model), path1)
    ensures path1 in m ==> !missing && thp.model == Delete(old(thp.model), path1)
  {
    missing := DeleteOnce(thp, path1, m);
  }

  /** Whether searchWords finds a server. */
  method HasServer(thp: Tries, path1: Word) returns (found: bool)
    requires thp.Valid()
    ensures found <==> HasPorts(thp.model, path1)
  {
    var portsExist := new LLHead();
    SearchWords(thp, path1, portsExist);
    found := portsExist.currSize > 0;
    ReversedSame(At(thp.model, path1).ports, 0);
  }

  // ---------- deletefile ----------

  /** The paths that deletefile removes from the cache: a second time when a server is known. */
  ghost function FileRemovals(path1: Word, index: int): seq<Word> {
    if index >= 0 then [path1, path1] else [path1]
  }

  /** The lists go on naming the same servers. */
  twostate predicate Kept(lists: set<LLHead>)
    reads lists
  {
    forall lh | lh in lists :: WellSized(lh) && lh.items == old(lh.items)
  }

  /** Deletefilefunctionality. When a server is known, the path's mark is cleared and the word nextentry finds
      from it is deleted. The source walks to the path's node without looking; a missing node is met exactly
      when the cache knows a server for a path that is not linked. */
  method DeleteFile(thp: Tries, cache: LRUCache, path1: Word, ghost m: Bag)
    returns (index: int, crashed: bool, intact: bool, ghost m': Bag)
    requires thp.Valid() && Fits(thp.model, BUFFER) && Counts(thp.model, m) && path1 != []
    requires cache.Ready() && thp.Repr !! cache.Repr
    requires forall lh | lh in Hit(cache, path1) :: lh !in thp.Repr && lh !in cache.Repr && WellSized(lh)
    modifies thp.Repr, cache.Repr, Hit(cache, path1)
    ensures thp.Valid() && Fits(thp.model, BUFFER) && thp.Repr <= old(thp.Repr) && cache.Repr == old(cache.Repr)
    ensures index == FirstKnown(old(Known(thp, cache, path1)))
    ensures crashed <==> index >= 0 && path1 !in old(thp.model)
    ensures index < 0 || crashed ==> thp.model == old(thp.model) && m' == m
    ensures index >= 0 && !crashed ==> FileGone(old(thp.model), m, path1, thp.model, m')
    ensures Removing(cache, old(cache.model), FileRemovals(path1, index), intact)
    ensures Kept(old(Hit(cache, path1)))
  {
    ghost var c := cache.model;
    index, intact := SearchFile(thp, cache, path1);
    crashed, m' := false, m;
    if index >= 0 {
      intact, crashed, m' := DeleteKnown(thp, cache, path1, intact, c, m);
    }
  }

  /** Up to the choice of the server. */
  method SearchFile(thp: Tries, cache: LRUCache, path1: Word) returns (index: int, intact: bool)
    requires thp.Valid() && cache.Ready() && thp.Repr !! cache.Repr
    requires forall lh | lh in Hit(cache, path1) :: lh !in thp.Repr && lh !in cache.Repr && WellSized(lh)
    modifies cache.Repr, Hit(cache, path1)
    ensures thp.Valid() && thp.model == old(thp.model) && thp.Repr == old(thp.Repr) && cache.Repr == old(cache.Repr)
    ensures index == FirstKnown(old(Known(thp, cache, path1)))
    ensures Removing(cache, old(cache.model), [path1], intact)
    ensures Kept(old(Hit(cache, path1)))
  {
    ghost var c, hit := cache.model, Hit(cache, path1);
    cache.NodesOwned();
    assert L.RemovedAll(c, []) == c;
    var cached;
    intact, cached := ForgetBeside(thp, cache, path1, true, c, []);
    assert hit == Of(cached);
    index := SearchBeside(thp, cache, cached, path1, intact, c, [path1]);
  }

  /** What follows when a server is known. */
  method DeleteKnown(thp: Tries, cache: LRUCache, path1: Word, intact: bool, ghost c: L.Cache<LLHead>, ghost m: Bag)
    returns (still: bool, crashed: bool, ghost m': Bag)
    requires thp.Valid() && Fits(thp.model, BUFFER) && Counts(thp.model, m) && path1 != []
    requires thp.Repr !! cache.Repr && Removing(cache, c, [path1], intact)
    modifies thp.Repr, cache.Repr
    ensures thp.Valid() && Fits(thp.model, BUFFER) && thp.Repr <= old(thp.Repr) && cache.Repr == old(cache.Repr)
    ensures crashed <==> path1 !in old(thp.model)
    ensures crashed ==> thp.model == old(thp.model) && m' == m
    ensures !crashed ==> FileGone(old(thp.model), m, path1, thp.model, m')
    ensures Removing(cache, c, [path1, path1], still)
  {
    var again;
    still, again := ForgetBeside(thp, cache, path1, intact, c, [path1]);
    assert [path1] + [path1] == [path1, path1];
    crashed, m' := DeleteAt(thp, path1, m);
  }

  /** The walk to the path's node and what follows. */
  method DeleteAt(thp: Tries, path1: Word, ghost m: Bag) returns (crashed: bool, ghost m': Bag)
    requires thp.Valid() && Fits(thp.model, BUFFER) && Counts(thp.model, m) && path1 != []
    modifies thp.Repr
    ensures thp.Valid() && Fits(thp.model, BUFFER) && thp.Repr <= old(thp.Repr)
    ensures crashed <==> path1 !in old(thp.model)
    ensures crashed ==> thp.model == old(thp.model) && m' == m
    ensures !crashed ==> FileGone(old(thp.model), m, path1, thp.model, m')
  {
    m' := m;
    var tp := Find(thp, path1);
    crashed := tp == null;
    if !crashed {
      ghost var w := DeletePresent(thp, path1, m);
      m' := m - multiset{w};
    }
  }

  /** The search, and the cache keeps out of it. */
  method SearchBeside(thp: Tries, cache: LRUCache, cached: LLHead?, path1: Word, intact: bool,
                      ghost c: L.Cache<LLHead>, ghost ws: seq<Word>)
    returns (index: int)
    requires thp.Valid() && thp.Repr !! cache.Repr && Removing(cache, c, ws, intact)
    requires cached != null ==> cached !in thp.Repr && cached !in cache.Repr && WellSized(cached)
    modifies Of(cached)
    ensures thp.Valid() && thp.model == old(thp.model) && thp.Repr == old(thp.Repr)
    ensures Removing(cache, c, ws, intact) && cache.Repr == old(cache.Repr)
    ensures index == FirstKnown(if cached != null then old(cached.items) else Reversed(At(thp.model, path1).ports))
    ensures cached != null ==> WellSized(cached) && cached.items == old(cached.items)
  {
    index := SearchFirst(thp, cached, path1);
  }

  // ---------- cache and trie after a delete ----------

  /** No list with servers in it is cached for a path that is not linked. */
  ghost predicate NothingStale(u: Trie, c: L.Cache<LLHead>)
    reads set pl | pl in Pairs(c) :: pl.1
  {
    forall pl | pl in Pairs(c) && pl.0 !in u :: pl.1.items == []
  }

  /** Nodes have gone, and those left know the same servers. */
  ghost predicate Fewer(t: Trie, u: Trie) {
    forall q | q in u :: q in t && u[q].ports == t[q].ports
  }

  lemma {:induction false} RemovedPairs(c: L.Cache<LLHead>, ws: seq<Word>)
    ensures Pairs(L.RemovedAll(c, ws)) <= Pairs(c)
    decreases |ws|
  {
    if ws != [] {
      RemovedPairs(c, ws[..|ws| - 1]);
      OneRemovedPairs(L.RemovedAll(c, ws[..|ws| - 1]), ws[|ws| - 1]);
    }
  }

  lemma OneRemovedPairs(c: L.Cache<LLHead>, p: Word)
    ensures Pairs(L.Removed(c, p)) <= Pairs(c)
  {
    var i := L.Find(c, p);
    if i < |c| {
      var d := L.Remove(c, i);
      forall k | 0 <= k < |d| ensures (d[k].path, d[k].lh) in Pairs(c) {
        assert d[k].path == c[L.Origin(i, k)].path && d[k].lh == c[L.Origin(i, k)].lh;
      }
    }
  }

  lemma LocatedExactly(t: Trie, u: Trie, p: Word, lh: LLHead)
    requires Located(t, p, lh) && Fewer(t, u)
    ensures Located(u, p, lh) <==> p in u || lh.items == []
  {
    if p in u {
      assert PortsOf(u, p) == PortsOf(t, p);
    } else if lh.items != [] {
      var x := lh.items[0];
      assert x in lh.items && x !in PortsOf(u, p);
    }
  }

  lemma CoherentExactly(t: Trie, u: Trie, c: L.Cache<LLHead>, d: L.Cache<LLHead>)
    requires Coherent(t, Pairs(c)) && Pairs(d) <= Pairs(c) && Fewer(t, u)
    ensures Coherent(u, Pairs(d)) <==> NothingStale(u, d)
  {
    forall pl | pl in Pairs(d) ensures Located(u, pl.0, pl.1) <==> (pl.0 in u || pl.1.items == []) {
      assert pl in Pairs(c) && Located(t, pl.0, pl.1);
      LocatedExactly(t, u, pl.0, pl.1);
    }
  }

  /** Trie and cache are in step after the removals ws, and whatever the trie lost, exactly when all removals
      left the slots in order and nothing that is still cached is stale. */
  lemma InStepExactly(thp: Tries, cache: LRUCache, t: Trie, c: L.Cache<LLHead>, ws: seq<Word>, intact: bool)
    requires thp.Valid() && thp.Repr !! cache.Repr && Removing(cache, c, ws, intact) && cache.capacity >= 2
    requires Coherent(t, Pairs(c)) && Fewer(t, thp.model)
    requires forall pl | pl in Pairs(c) :: pl.1 !in cache.Repr && pl.1 !in thp.Repr
    ensures Synced(thp, cache) <==> L.AdmitsAll(c, ws) && NothingStale(thp.model, L.RemovedAll(c, ws))
  {
    var d := L.RemovedAll(c, ws);
    RemovedPairs(c, ws);
    CoherentExactly(t, thp.model, c, d);
  }

  lemma FileFewer(t: Trie, path: Word)
    requires path in t
    ensures Fewer(t, FileDeleted(t, path))
    ensures forall q | q in t :: q !in FileDeleted(t, path) <==> q in Zeros(t, FileNext(t, path))
  {}

  /** The word that deletefile of the path deletes. */
  ghost function FileNext(t: Trie, path: Word): Word
    requires path in t
  {
    NextEntry(Unmark(t, path), path)
  }

  /** No list with servers in it is cached for a path node, counted once, of the word that deletefile of the
      path deletes: these are the nodes that the trie then loses. */
  ghost predicate NothingLost(t: Trie, path: Word, c: L.Cache<LLHead>)
    requires path in t
    reads set pl | pl in Pairs(c) :: pl.1
  {
    forall pl | pl in Pairs(c) && pl.0 in Zeros(t, FileNext(t, path)) :: pl.1.items == []
  }

  lemma LostIsStale(t: Trie, path: Word, c: L.Cache<LLHead>)
    requires path in t && Coherent(t, Pairs(c))
    ensures NothingLost(t, path, c) <==> NothingStale(FileDeleted(t, path), c)
  {
    FileFewer(t, path);
    forall pl | pl in Pairs(c) && pl.0 !in t ensures pl.1.items == [] {
      assert Located(t, pl.0, pl.1);
      LocatedExactly(t, t, pl.0, pl.1);
    }
  }

  lemma UnchangedNotStale(t: Trie, c: L.Cache<LLHead>)
    requires Coherent(t, Pairs(c))
    ensures NothingStale(t, c)
  {
    CoherentExactly(t, t, c, c);
  }

  lemma FileInStep(thp: Tries, cache: LRUCache, t: Trie, c: L.Cache<LLHead>, path: Word, index: int, intact: bool)
    requires thp.Valid() && thp.Repr !! cache.Repr && cache.capacity >= 2 && Coherent(t, Pairs(c))
    requires index >= 0 ==> path in t
    requires thp.model == if index >= 0 then FileDeleted(t, path) else t
    requires Removing(cache, c, FileRemovals(path, index), intact)
    requires forall pl | pl in Pairs(c) :: pl.1 !in cache.Repr && pl.1 !in thp.Repr
    ensures Synced(thp, cache) <==>
      && L.AdmitsAll(c, FileRemovals(path, index))
      && (index >= 0 ==> NothingLost(t, path, L.RemovedAll(c, FileRemovals(path, index))))
  {
    var ws := FileRemovals(path, index);
    var d := L.RemovedAll(c, ws);
    RemovedPairs(c, ws);
    CoherentMonotone(t, t, Pairs(c), Pairs(d));
    if index >= 0 {
      FileFewer(t, path);
      LostIsStale(t, path, d);
    } else {
      UnchangedNotStale(t, d);
    }
    InStepExactly(thp, cache, t, c, ws, intact);
  }

  /** Once deletefile has returned, trie and cache are in step exactly when removing the path left the slots in
      order and nothing that is still cached is lost. No missing node is met. */
  method DeleteFileSynced(thp: Tries, cache: LRUCache, path1: Word, ghost m: Bag)
    returns (index: int, intact: bool, ghost m': Bag)
    requires Synced(thp, cache) && Fits(thp.model, BUFFER) && Counts(thp.model, m) && path1 != []
    modifies thp.Repr, cache.Repr, Hit(cache, path1)
    ensures index == FirstKnown(old(Known(thp, cache, path1)))
    ensures index < 0 ==> thp.model == old(thp.model) && m' == m
    ensures index >= 0 ==> path1 in old(thp.model) && FileGone(old(thp.model), m, path1, thp.model, m')
    ensures Kept(old(Lists(cache)))
    ensures Removing(cache, old(cache.model), FileRemovals(path1, index), intact)
    ensures Synced(thp, cache) <==>
      && L.AdmitsAll(old(cache.model), FileRemovals(path1, index))
      && (index >= 0 ==>
            NothingLost(old(thp.model), path1, L.RemovedAll(old(cache.model), FileRemovals(path1, index))))
  {
    ghost var t, c := thp.model, cache.model;
    index, intact, m' := DeleteFileCoherent(thp, cache, path1, m);
    FileInStep(thp, cache, t, c, path1, index, intact);
  }

  /** What was cached is still in step with the trie as it was. */
  method DeleteFileCoherent(thp: Tries, cache: LRUCache, path1: Word, ghost m: Bag)
    returns (index: int, intact: bool, ghost m': Bag)
    requires Synced(thp, cache) && Fits(thp.model, BUFFER) && Counts(thp.model, m) && path1 != []
    modifies thp.Repr, cache.Repr, Hit(cache, path1)
    ensures thp.Valid() && thp.Repr !! cache.Repr
    ensures index == FirstKnown(old(Known(thp, cache, path1)))
    ensures index < 0 ==> thp.model == old(thp.model) && m' == m
    ensures index >= 0 ==> path1 in old(thp.model) && FileGone(old(thp.model), m, path1, thp.model, m')
    ensures Kept(old(Lists(cache))) && Coherent(old(thp.model), old(Pairs(cache.model)))
    ensures forall pl | pl in old(Pairs(cache.model)) :: pl.1 !in cache.Repr && pl.1 !in thp.Repr
    ensures Removing(cache, old(cache.model), FileRemovals(path1, index), intact)
  {
    ghost var t, c := thp.model, cache.model;
    index, intact, m' := DeleteFileCached(thp, cache, path1, m);
    forall pl | pl in Pairs(c) ensures Located(t, pl.0, pl.1) && pl.1.items == old(pl.1.items) {
      assert old(Located(t, pl.0, pl.1));
    }
    forall pl, pm | pl in Pairs(c) && pm in Pairs(c) ensures Alone(pl, pm) {
      assert old(Alone(pl, pm));
    }
  }

  /** The cached lists are what they were, and apart on the heap. */
  method DeleteFileCached(thp: Tries, cache: LRUCache, path1: Word, ghost m: Bag)
    returns (index: int, intact: bool, ghost m': Bag)
    requires Synced(thp, cache) && Fits(thp.model, BUFFER) && Counts(thp.model, m) && path1 != []
    modifies thp.Repr, cache.Repr, Hit(cache, path1)
    ensures thp.Valid() && thp.Repr !! cache.Repr
    ensures index == FirstKnown(old(Known(thp, cache, path1)))
    ensures index < 0 ==> thp.model == old(thp.model) && m' == m
    ensures index >= 0 ==> path1 in old(thp.model) && FileGone(old(thp.model), m, path1, thp.model, m')
    ensures Kept(old(Lists(cache)))
    ensures forall pl | pl in old(Pairs(cache.model)) :: pl.1 !in cache.Repr && pl.1 !in thp.Repr
    ensures Removing(cache, old(cache.model), FileRemovals(path1, index), intact)
  {
    HitIsListed(thp, cache, path1);
    if FirstKnown(Known(thp, cache, path1)) >= 0 {
      InStepNeverMissing(thp, cache, path1);
    }
    var crashed;
    index, crashed, intact, m' := DeleteFile(thp, cache, path1, m);
  }

  lemma HitIsListed(thp: Tries, cache: LRUCache, path: Word)
    requires Synced(thp, cache)
    ensures Hit(cache, path) <= Lists(cache)
    ensures forall lh | lh in Lists(cache) :: lh !in thp.Repr && lh !in cache.Repr && WellSized(lh)
  {
    GetPairs(cache.model, path, cache.now);
    forall lh | lh in Lists(cache) ensures lh !in cache.Repr && WellSized(lh) {
      var pl :| pl in Pairs(cache.model) && pl.1 == lh;
      assert Located(thp.model, pl.0, pl.1);
    }
  }

  lemma DrainFewer(t: Trie, m: Bag, d: Word, t1: Trie, m1: Bag, path: Word, missing: bool)
    requires Counts(t, m) && Drained(t, m, d, t1, m1) && d != []
    ensures Fewer(t, if missing then t1 else DeleteLinked(t1, path))
  {
    forall q | q in t1 ensures q in t && t1[q].ports == t[q].ports {
      if d <= q {
        BelowPositive(m1, q);
      }
      assert SameRecord(t, t1, q);
    }
  }

  /** Once deletedir has returned, trie and cache are in step exactly when the removals of its content and of
      the directory, in this order, left the slots in order and no list with servers in it is still cached for
      a path that is no longer linked. */
  method DeleteDirSynced(thp: Tries, cache: LRUCache, path1: Word, ghost m: Bag)
    returns (found: bool, crashed: bool, intact: bool, ghost ws: seq<Word>)
    requires Synced(thp, cache) && Fits(thp.model, BUFFER) && Counts(thp.model, m) && path1 != []
    modifies thp.Repr, cache.Repr
    ensures found <==> HasPorts(old(thp.model), path1)
    ensures !found ==> thp.model == old(thp.model) && cache.model == old(cache.model)
    ensures found ==> ws == DrainWords(old(thp.model), path1 + [SLASH], Below(m, path1 + [SLASH])) && multiset(ws) <= m
    ensures found ==> (crashed <==> forall x | x in m && path1 <= x :: path1 + [SLASH] <= x)
    ensures found && path1 in m ==>
      !crashed && DirDeleted(old(thp.model), m, path1, thp.model, m - multiset(ws) - multiset{path1})
    ensures found ==> Removing(cache, old(cache.model), ws + [path1], intact)
    ensures Synced(thp, cache) <==>
      || !found
      || (&& L.AdmitsAll(old(cache.model), ws + [path1])
          && NothingStale(thp.model, L.RemovedAll(old(cache.model), ws + [path1])))
  {
    ghost var t, c := thp.model, cache.model;
    found, crashed, intact, ws := DeleteDirCoherent(thp, cache, path1, m);
    if !found {
      UnchangedNotStale(t, c);
    }
    InStepExactly(thp, cache, t, c, if found then ws + [path1] else [], intact);
  }

  /** What was cached is still in step with the trie as it was. */
  method DeleteDirCoherent(thp: Tries, cache: LRUCache, path1: Word, ghost m: Bag)
    returns (found: bool, crashed: bool, intact: bool, ghost ws: seq<Word>)
    requires Synced(thp, cache) && Fits(thp.model, BUFFER) && Counts(thp.model, m) && path1 != []
    modifies thp.Repr, cache.Repr
    ensures thp.Valid() && thp.Repr !! cache.Repr && Fewer(old(thp.model), thp.model)
    ensures Coherent(old(thp.model), old(Pairs(cache.model)))
    ensures forall pl | pl in old(Pairs(cache.model)) :: pl.1 !in cache.Repr && pl.1 !in thp.Repr
    ensures found <==> HasPorts(old(thp.model), path1)
    ensures !found ==> thp.model == old(thp.model)
    ensures found ==> ws == DrainWords(old(thp.model), path1 + [SLASH], Below(m, path1 + [SLASH])) && multiset(ws) <= m
    ensures found ==> (crashed <==> forall x | x in m && path1 <= x :: path1 + [SLASH] <= x)
    ensures found && path1 in m ==>
      !crashed && DirDeleted(old(thp.model), m, path1, thp.model, m - multiset(ws) - multiset{path1})
    ensures Removing(cache, old(cache.model), if found then ws + [path1] else [], intact)
  {
    ghost var t, c := thp.model, cache.model;
    found, crashed, intact, ws := DeleteDirCached(thp, cache, path1, m);
    forall pl | pl in Pairs(c) ensures Located(t, pl.0, pl.1) && pl.1.items == old(pl.1.items) {
      assert old(Located(t, pl.0, pl.1));
    }
    forall pl, pm | pl in Pairs(c) && pm in Pairs(c) ensures Alone(pl, pm) {
      assert old(Alone(pl, pm));
    }
  }

  /** The cached lists are what they were, and apart on the heap. */
  method DeleteDirCached(thp: Tries, cache: LRUCache, path1: Word, ghost m: Bag)
    returns (found: bool, crashed: bool, intact: bool, ghost ws: seq<Word>)
    requires Synced(thp, cache) && Fits(thp.model, BUFFER) && Counts(thp.model, m) && path1 != []
    modifies thp.Repr, cache.Repr
    ensures thp.Valid() && thp.Repr !! cache.Repr && Fewer(old(thp.model), thp.model)
    ensures Kept(old(Lists(cache)))
    ensures forall pl | pl in old(Pairs(cache.model)) :: pl.1 !in cache.Repr && pl.1 !in thp.Repr
    ensures found <==> HasPorts(old(thp.model), path1)
    ensures !found ==> thp.model == old(thp.model)
    ensures found ==> ws == DrainWords(old(thp.model), path1 + [SLASH], Below(m, path1 + [SLASH])) && multiset(ws) <= m
    ensures found ==> (crashed <==> forall x | x in m && path1 <= x :: path1 + [SLASH] <= x)
    ensures found && path1 in m ==>
      !crashed && DirDeleted(old(thp.model), m, path1, thp.model, m - multiset(ws) - multiset{path1})
    ensures Removing(cache, old(cache.model), if found then ws + [path1] else [], intact)
  {
    ghost var t, t1 := thp.model, thp.model;
    HitIsListed(thp, cache, path1);
    found, crashed, intact, t1, ws := DeleteDir(thp, cache, path1, m);
    if found {
      DrainFewer(t, m, path1 + [SLASH], t1, m - multiset(ws), path1, crashed);
    }
  }

  // ---------- when the cache only knows what is outstanding ----------

  /** The lists with servers in them. */
  ghost function Filled(c: L.Cache<LLHead>): iset<LLHead>
    reads set pl | pl in Pairs(c) :: pl.1
  {
    iset pl | pl in Pairs(c) && pl.1.items != [] :: pl.1
  }

  /** A list with servers in it is cached for outstanding paths only, and a lookup of the path can find it. */
  ghost predicate Tidy(m: Bag, c: L.Cache<LLHead>)
    reads set pl | pl in Pairs(c) :: pl.1
  {
    forall i | 0 <= i < |c| && c[i].lh in Filled(c) :: c[i].path in m && L.Visible(c, i)
  }

  /** Of a cache that only knows outstanding paths deletedir of an outstanding directory leaves nothing stale. */
  lemma TidyAfterDir(t: Trie, m: Bag, c: L.Cache<LLHead>, now: nat, dir: Word, ws: seq<Word>, t': Trie)
    requires Tidy(m, c) && L.Orderly(c, now) && L.AdmitsAll(c, ws + [dir])
    requires dir in m && multiset(ws) <= m && DirDeleted(t, m, dir, t', m - multiset(ws) - multiset{dir})
    ensures NothingStale(t', L.RemovedAll(c, ws + [dir]))
  {
    var all := ws + [dir];
    var d := L.RemovedAll(c, all);
    RemovedPairs(c, all);
    forall pl | pl in Pairs(d) && pl.0 !in t' ensures pl.1.items == [] {
      if pl.1.items != [] {
        NotStale(t, m, c, now, dir, ws, t', pl);
      }
    }
  }

  lemma NotStale(t: Trie, m: Bag, c: L.Cache<LLHead>, now: nat, dir: Word, ws: seq<Word>, t': Trie, pl: Pair)
    requires Tidy(m, c) && L.Orderly(c, now) && L.AdmitsAll(c, ws + [dir]) && pl.1.items != []
    requires dir in m && multiset(ws) <= m && DirDeleted(t, m, dir, t', m - multiset(ws) - multiset{dir})
    requires pl in Pairs(c) && pl in Pairs(L.RemovedAll(c, ws + [dir]))
    ensures pl.0 in t'
  {
    CachedOutstanding(m, c, pl);
    NotRemoved(m, c, now, ws + [dir], pl);
    StaysIn(m, ws, dir, pl.0);
    BelowPositive(m - multiset(ws) - multiset{dir}, pl.0);
  }

  lemma NotRemoved(m: Bag, c: L.Cache<LLHead>, now: nat, ws: seq<Word>, pl: Pair)
    requires Tidy(m, c) && L.Orderly(c, now) && L.AdmitsAll(c, ws) && pl.1.items != []
    requires pl in Pairs(c) && pl in Pairs(L.RemovedAll(c, ws))
    ensures pl.0 !in ws
  {
    CachedOutstanding(m, c, pl);
    L.RemovedAllGone(c, ws, pl.0, Filled(c), now);
  }

  lemma StaysIn(m: Bag, ws: seq<Word>, w: Word, q: Word)
    requires q in m && q !in ws + [w]
    ensures q in m - multiset(ws) - multiset{w}
  {
    assert q !in ws && q != w;
  }

  lemma CachedOutstanding(m: Bag, c: L.Cache<LLHead>, pl: Pair)
    requires Tidy(m, c) && pl in Pairs(c) && pl.1.items != []
    ensures pl.0 in m && pl.1 in Filled(c)
  {
    var i :| 0 <= i < |c| && (c[i].path, c[i].lh) == pl;
  }

  /** Deletefile leaves such a cache in step exactly when it takes the path itself, or a path that is stored
      more than once, or one for which no server is cached. */
  lemma TidyAfterFile(t: Trie, m: Bag, c: L.Cache<LLHead>, now: nat, path: Word)
    requires Tidy(m, c) && L.Orderly(c, now) && L.AdmitsAll(c, FileRemovals(path, 0))
    requires Counts(t, m) && path in t && path != []
    ensures NothingLost(t, path, L.RemovedAll(c, FileRemovals(path, 0))) <==>
      var w := FileNext(t, path);
      w == path || At(t, w).count > 1 || forall pl | pl in Pairs(c) && pl.0 == w :: pl.1.items == []
  {
    var w, ws := FileNext(t, path), FileRemovals(path, 0);
    var d := L.RemovedAll(c, ws);
    FileNextIs(t, m, path);
    RemovedPairs(c, ws);
    forall pl | pl in Pairs(d) && pl.0 in Zeros(t, w) && pl.1.items != []
      ensures pl.0 == w && w != path && t[w].count == 1
    {
      StaleIsNext(t, m, c, now, path, pl);
    }
    if pl :| pl in Pairs(c) && pl.0 == w && pl.1.items != [] && w != path && t[w].count == 1 {
      RemovedOthers(c, ws, pl);
      assert pl.0 in Zeros(t, w);
    }
  }

  lemma StaleIsNext(t: Trie, m: Bag, c: L.Cache<LLHead>, now: nat, path: Word, pl: Pair)
    requires Tidy(m, c) && L.Orderly(c, now) && L.AdmitsAll(c, FileRemovals(path, 0))
    requires Counts(t, m) && path in t && path != [] && pl.1.items != []
    requires pl in Pairs(L.RemovedAll(c, FileRemovals(path, 0))) && pl.0 in Zeros(t, FileNext(t, path))
    ensures pl.0 == FileNext(t, path) && pl.0 != path
  {
    var ws := FileRemovals(path, 0);
    RemovedPairs(c, ws);
    FileNextIs(t, m, path);
    CachedOutstanding(m, c, pl);
    OnlyOneBelow(t, m, pl.0, FileNext(t, path));
    NotRemoved(m, c, now, ws, pl);
  }

  lemma FileNextIs(t: Trie, m: Bag, path: Word)
    requires Counts(t, m) && path in t && path != []
    ensures var w := FileNext(t, path); w in m && path <= w && w in t && t[w].count >= 1
  {
    UnmarkCounts(t, m, path);
    NextEntryOutstanding(Unmark(t, path), m, path);
    OutstandingLinked(t, m, FileNext(t, path), FileNext(t, path));
    BelowMember(m, FileNext(t, path), FileNext(t, path));
  }

  lemma OnlyOneBelow(t: Trie, m: Bag, q: Word, w: Word)
    requires Counts(t, m) && q in m && w in m && q in Zeros(t, w)
    ensures q == w
  {
    BelowRemove(m, q, q);
    if q != w {
      BelowMember(m - multiset{q}, q, w);
    }
  }

  /** Entries of other paths stay. */
  lemma {:induction false} RemovedOthers(c: L.Cache<LLHead>, ws: seq<Word>, pl: Pair)
    requires pl in Pairs(c) && pl.0 !in ws
    ensures pl in Pairs(L.RemovedAll(c, ws))
    decreases |ws|
  {
    if ws != [] {
      RemovedOthers(c, ws[..|ws| - 1], pl);
      RemovedOther(L.RemovedAll(c, ws[..|ws| - 1]), ws[|ws| - 1], pl);
    }
  }

  lemma RemovedOther(c: L.Cache<LLHead>, q: Word, pl: Pair)
    requires pl in Pairs(c) && pl.0 != q
    ensures pl in Pairs(L.Removed(c, q))
  {
    var i := L.Find(c, q);
    if i < |c| {
      var d := L.Remove(c, i);
      var o :| 0 <= o < |c| && (c[o].path, c[o].lh) == pl;
      var n := if o < i then o else o - 1;
      assert L.Origin(i, n) == o;
      assert (d[n].path, d[n].lh) == pl;
    }
  }
}
