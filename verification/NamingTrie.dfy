/** The trie side of the naming server's handlers, on the heap. */
module NamingTrie {
  import opened Words
  import opened PathNames
  import opened TrieModel
  import opened TrieWalk
  import opened TriesHeap
  import opened TrieReading
  import opened NamespaceModel

  /** nextentry, copied out of the buffer it was built in. */
  method NextEntryOf(thp: Tries, val: Word) returns (w: Word)
    requires thp.Valid() && Fits(thp.model, BUFFER)
    ensures w == NextEntry(thp.model, val)
  {
    var T := NextEntryInto(thp, val);
    w := BufferString(T);
  }

  /** The last call of deletedir. */
  method DeleteOnce(thp: Tries, path1: Word, ghost m: Bag) returns (missing: bool)
    requires thp.Valid() && Fits(thp.model, BUFFER) && Counts(thp.model, m)
    modifies thp.Repr
    ensures thp.Valid() && Fits(thp.model, BUFFER) && thp.Repr <= old(thp.Repr)
    ensures missing <==> path1 !in old(thp.model)
    ensures thp.model == if missing then old(thp.model) else DeleteLinked(old(thp.model), path1)
    ensures path1 in m ==> !missing && thp.model == Delete(old(thp.model), path1)
  {
    if path1 in m {
      OutstandingLinked(thp.model, m, path1, path1);
    }
    var tp := Find(thp, path1);
    missing := tp == null;
    if !missing {
      DeleteNode(thp, path1, m);
    }
  }

  /** The first element that is not -1. */
  function FirstKnown(s: seq<int>): (x: int)
    ensures x in s || x == -1
    ensures (forall y | y in s :: y >= 0) && s != [] ==> x == s[0]
  {
    if s == [] then -1
    else
      assert s[0] in s;
      if s[0] != -1 then s[0] else FirstKnown(s[1..])
  }

  /** Walk the list until a server is known. */
  method FirstPort(ports: LLHead) returns (index: int)
    ensures index == FirstKnown(ports.items)
  {
    var temp := ports.items;
    index := -1;
    while temp != [] && index == -1
      invariant if index == -1 then FirstKnown(temp) == FirstKnown(ports.items) else index == FirstKnown(ports.items)
      decreases |temp|
    {
      index := temp[0];
      temp := temp[1..];
    }
  }

  /** A list as the handlers leave it: its size is its length, or -1 for "present without ports". */
  ghost predicate WellSized(lh: LLHead)
    reads lh
  {
    lh.currSize == |lh.items| || (lh.currSize == -1 && lh.items == [])
  }

  ghost function Of(lh: LLHead?): set<LLHead> {
    if lh == null then {} else {lh}
  }

  /** The search of deletefile up to the choice of the server; -1 when there is none. */
  method SearchFirst(thp: Tries, cached: LLHead?, path1: Word) returns (index: int)
    requires thp.Valid()
    requires cached != null ==> cached !in thp.Repr && WellSized(cached)
    modifies Of(cached)
    ensures thp.Valid() && thp.model == old(thp.model) && thp.Repr == old(thp.Repr)
    ensures index == FirstKnown(if cached != null then old(cached.items) else Reversed(At(thp.model, path1).ports))
    ensures cached != null ==> WellSized(cached) && cached.items == old(cached.items)
  {
    var portsExist := new LLHead();
    if cached == null {
      SearchWords(thp, path1, portsExist);
      assert portsExist.items == Reversed(At(thp.model, path1).ports);
    } else {
      portsExist := cached;
    }
    if portsExist.currSize == -1 {
      portsExist.currSize := portsExist.currSize + 1;
    }
    assert thp.Valid();
    index := -1;
    if portsExist.currSize != 0 {
      index := FirstPort(portsExist);
    }
  }

  method DeletePresent(thp: Tries, path1: Word, ghost m: Bag) returns (ghost w: Word)
    requires thp.Valid() && Fits(thp.model, BUFFER) && Counts(thp.model, m)
    requires path1 != [] && path1 in thp.model
    modifies thp.Repr
    ensures thp.Valid() && Fits(thp.model, BUFFER) && thp.Repr <= old(thp.Repr)
    ensures thp.model == FileDeleted(old(thp.model), path1)
    ensures w == NextEntry(Unmark(old(thp.model), path1), path1) && w in m && Counts(thp.model, m - multiset{w})
  {
    var tp := Find(thp, path1);
    UnmarkCounts(thp.model, m, path1);
    assert thp.Owns(path1);
    thp.SetEnd(tp, path1, false);
    NextEntryOutstanding(thp.model, m, path1);
    var next := NextEntryOf(thp, path1);
    w := next;
    OutstandingLinked(thp.model, m, w, w);
    DeleteNode(thp, next, m);
  }

  /** The strtok loop of create and copydir: every component prefix goes into the trie. */
  method InsertPath(thp: Tries, path1: Word, index: int)
    requires thp.Valid()
    modifies thp.Repr
    ensures thp.Valid() && fresh(thp.Repr - old(thp.Repr))
    ensures thp.model == InsertAll(old(thp.model), ComponentPaths(path1), index)
  {
    var path: Word := [];
    var token, rest := Strtok(path1, SLASH);
    while token != []
      invariant thp.Valid() && fresh(thp.Repr - old(thp.Repr))
      invariant InsertAll(thp.model, PathsFrom(path, if token == [] then [] else [token] + Tokens(rest, SLASH)), index)
                == InsertAll(old(thp.model), ComponentPaths(path1), index)
      decreases if token == [] then 0 else 1, |rest|
    {
      path := path + token;
      InsertTries3(thp, path, index, index, index);
      path := path + [SLASH];
      token, rest := Strtok(rest, SLASH);
    }
  }

  const NEWLINE: Letter := '\n'

  /** tokenizeAndPrint: every line of a storage server's listing goes into the trie. */
  method Register(thp: Tries, listing: Word, port: int)
    requires thp.Valid()
    modifies thp.Repr
    ensures thp.Valid() && fresh(thp.Repr - old(thp.Repr))
    ensures thp.model == InsertAll(old(thp.model), Tokens(listing, NEWLINE), port)
  {
    var token, rest := Strtok(listing, NEWLINE);
    while token != []
      invariant thp.Valid() && fresh(thp.Repr - old(thp.Repr))
      invariant InsertAll(thp.model, if token == [] then [] else [token] + Tokens(rest, NEWLINE), port)
                == InsertAll(old(thp.model), Tokens(listing, NEWLINE), port)
      decreases if token == [] then 0 else 1, |rest|
    {
      InsertTries3(thp, token, port, port, port);
      token, rest := Strtok(rest, NEWLINE);
    }
  }

  /** The trie part of copydirfunctionality. */
  method CopyDir(thp: Tries, path1: Word, path2: Word, answer: nat -> Answer)
    requires thp.Valid() && Fits(thp.model, BUFFER) && MarkedHavePorts(thp.model) && |path1| + 1 < BUFFER
    modifies thp.Repr
    ensures thp.Valid() && fresh(thp.Repr - old(thp.Repr))
    ensures thp.model == CopyDirDone(old(thp.model), path1, path2, answer)
  {
    var c1 := SearchSubstring(thp, path1);
    var c2 := SearchSubstring(thp, path2);
    if c1 != 1 || c2 != 1 {
      return;
    }
    var buffer := new char[BUFFER];
    StrCpy(buffer, path1);
    var tch := LLTriesPortsFn(thp, buffer, path1);
    CopyCells(thp, tch.cells, path2, answer);
  }

  /** The loop over the collected entries. */
  method CopyCells(thp: Tries, first: seq<Entry>, path2: Word, answer: nat -> Answer)
    requires thp.Valid()
    modifies thp.Repr
    ensures thp.Valid() && fresh(thp.Repr - old(thp.Repr))
    ensures thp.model == CopyInto(old(thp.model), first, path2, answer, 0)
  {
    var lnt := first;
    var k: nat := 0;
    while lnt != []
      invariant thp.Valid() && fresh(thp.Repr - old(thp.Repr))
      invariant CopyInto(thp.model, lnt, path2, answer, k) == CopyInto(old(thp.model), first, path2, answer, 0)
      decreases |lnt|
    {
      match answer(k) {
        case NoServer =>
        case Acknowledged(index1, yes) =>
          if !yes {
            return;
          }
          InsertPath(thp, Target(path2, lnt[0].val), index1);
      }
      lnt := lnt[1..];
      k := k + 1;
    }
  }
}
