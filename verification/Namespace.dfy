/** The namespace as a state machine over the counted trie: what every command keeps. */
module Namespace {
  import opened Words
  import opened PathNames
  import opened TrieModel
  import opened TrieWalk
  import opened TrieReading
  import opened NamespaceModel

  /** The trie and its outstanding insertions. */
  datatype State = State(t: Trie, m: Bag)

  /** Each listed path has all its ancestor directories listed. */
  ghost predicate Closed(t: Trie) {
    forall w, a {:trigger Ancestor(a, w)} | Shown(t, w) && Ancestor(a, w) :: Shown(t, a)
  }

  ghost predicate AllNormal(m: Bag) {
    forall w | w in m :: Normal(w)
  }

  ghost predicate Inv(s: State) {
    Counts(s.t, s.m) && Closed(s.t) && AllNormal(s.m)
  }

  // ---------- the commands ----------

  datatype Command =
    | Create(path: Word, index: int, done: bool)
    | Registration(listing: seq<Word>, port: int)
    | DeleteDir(path: Word)
    | DeleteFile(path: Word, known: bool)
    | CopyDir(path1: Word, path2: Word, answer: nat -> Answer)

  ghost predicate Step(s: State, c: Command, s': State) {
    match c
    case Create(path, index, done) =>
      s' == if done then Inserted(s, ComponentPaths(path), index) else s
    case Registration(listing, port) => s' == Inserted(s, listing, port)
    case DeleteDir(path) => if HasPorts(s.t, path) then DirDeleted(s.t, s.m, path, s'.t, s'.m) else s' == s
    case DeleteFile(path, known) =>
      s' == if known && path in s.t
      then State(FileDeleted(s.t, path), s.m - multiset{NextEntry(Unmark(s.t, path), path)})
      else s
    case CopyDir(path1, path2, answer) => Copied(s, path1, path2, answer, s')
  }

  /** What the state must be like for a command to keep the namespace closed: listings come parent
      first, a directory that deletedir finds is still outstanding, and a file is only deleted when it is
      linked and no other stored path continues its name. A server of the file is known from the cache or
      from the trie. */
  ghost predicate Admissible(s: State, c: Command) {
    match c
    case Registration(listing, port) => ParentFirst(s.t, listing)
    case DeleteDir(path) => HasPorts(s.t, path) ==> path in s.m
    case DeleteFile(path, known) => path != [] && (known ==> path in s.t && Lonely(s.m, path))
    case _ => true
  }

  ghost predicate ParentFirst(t: Trie, listing: seq<Word>) {
    forall k | 0 <= k < |listing| ::
      Normal(listing[k]) && forall a | Ancestor(a, listing[k]) :: Shown(t, a) || a in listing[..k]
  }

  /** No other outstanding word starts with w. */
  ghost predicate Lonely(m: Bag, w: Word) {
    forall x | x in m && w <= x :: x == w
  }

  ghost function Inserted(s: State, ws: seq<Word>, server: int): State {
    State(InsertAll(s.t, ws, server), s.m + multiset(ws))
  }

  /** The bag grows by what the answered creates of a copydir inserted. */
  ghost predicate Copied(s: State, path1: Word, path2: Word, answer: nat -> Answer, s': State) {
    && s'.t == CopyDirDone(s.t, path1, path2, answer)
    && s'.m == s.m + (if path1 in s.t && path2 in s.t
                      then CopyBag(Collected(s.t, ListedBelow(s.t, path1)), path2, answer, 0) else multiset{})
  }

  ghost function CopyBag(cells: seq<Entry>, path2: Word, answer: nat -> Answer, k: nat): Bag
    decreases cells
  {
    if cells == [] then multiset{}
    else match answer(k)
      case NoServer => CopyBag(cells[1..], path2, answer, k + 1)
      case Acknowledged(index, yes) =>
        if !yes then multiset{}
        else multiset(ComponentPaths(Target(path2, cells[0].val))) + CopyBag(cells[1..], path2, answer, k + 1)
  }

  // ---------- insertions ----------

  /** A series of insertions marks exactly its words in addition and touches no other record. */
  lemma {:induction false} InsertAllFacts(t: Trie, m: Bag, ws: seq<Word>, server: int)
    requires Counts(t, m)
    ensures Counts(InsertAll(t, ws, server), m + multiset(ws))
    ensures forall w :: Shown(InsertAll(t, ws, server), w) <==> Shown(t, w) || w in ws
    ensures forall w | w in t && w !in ws :: SameRecord(t, InsertAll(t, ws, server), w)
    decreases ws
  {
    if ws != [] {
      var u := Insert(t, ws[0], server, server, server);
      InsertCounts(t, m, ws[0], server, server, server);
      InsertAllFacts(u, m + multiset{ws[0]}, ws[1..], server);
      assert ws == [ws[0]] + ws[1..];
      assert m + multiset{ws[0]} + multiset(ws[1..]) == m + multiset(ws);
      forall w ensures Shown(u, w) <==> Shown(t, w) || w == ws[0] {
        InPrefixes(w, ws[0]);
      }
      forall w | w in t && w !in ws ensures SameRecord(t, InsertAll(t, ws, server), w) {
        InPrefixes(w, ws[0]);
        assert SameRecord(u, InsertAll(t, ws, server), w);
      }
    } else {
      assert m + multiset(ws) == m;
    }
  }

  lemma ComponentPathsNormal(path: Word, x: Word)
    requires x in ComponentPaths(path)
    ensures Normal(x)
  {
    TokensAreNames(path);
    PathsFromNormal([], Tokens(path, SLASH), x);
  }

  /** acc is empty or a normal path with a slash behind it. */
  ghost predicate Open(acc: Word) {
    acc == [] || (acc[|acc| - 1] == SLASH && Normal(acc[..|acc| - 1]))
  }

  lemma {:induction false} PathsFromNormal(acc: Word, tokens: seq<Word>, x: Word)
    requires Open(acc) && (forall t | t in tokens :: Name(t)) && x in PathsFrom(acc, tokens)
    ensures Normal(x)
    decreases tokens
  {
    assert Name(tokens[0]);
    var p := acc + tokens[0];
    NormalAppend(acc, tokens[0]);
    if x != p {
      assert (p + [SLASH])[..|p|] == p;
      PathsFromNormal(p + [SLASH], tokens[1..], x);
    }
  }

  lemma NormalAppend(acc: Word, t: Word)
    requires Open(acc) && Name(t)
    ensures Normal(acc + t)
  {
    var p := acc + t;
    var n := |acc|;
    assert p[|p| - 1] == t[|t| - 1];
    if n > 0 {
      var b := acc[..n - 1];
      assert p[0] == b[0];
      forall i | 0 <= i < |p| - 1 ensures !(p[i] == SLASH && p[i + 1] == SLASH) {
        if i < n - 2 {
          assert b[i] == p[i] && b[i + 1] == p[i + 1];
        } else if i == n - 2 {
          assert p[i] == b[|b| - 1];
        } else {
          assert p[i + 1] == t[i + 1 - n];
        }
      }
    } else {
      assert p == t;
    }
  }

  lemma CreateKeeps(s: State, path: Word, index: int)
    requires Inv(s)
    ensures Inv(Inserted(s, ComponentPaths(path), index))
  {
    var ws := ComponentPaths(path);
    InsertAllFacts(s.t, s.m, ws, index);
    var u := InsertAll(s.t, ws, index);
    forall w, a | Shown(u, w) && Ancestor(a, w) ensures Shown(u, a) {
      if w in ws {
        ComponentPathsClosed(path, w, a);
      }
    }
    forall w | w in s.m + multiset(ws) ensures Normal(w) {
      if w in ws {
        ComponentPathsNormal(path, w);
      }
    }
  }

  lemma RegistrationKeeps(s: State, listing: seq<Word>, port: int)
    requires Inv(s) && ParentFirst(s.t, listing)
    ensures Inv(Inserted(s, listing, port))
  {
    InsertAllFacts(s.t, s.m, listing, port);
    var u := InsertAll(s.t, listing, port);
    forall w, a | Shown(u, w) && Ancestor(a, w) ensures Shown(u, a) {
      if w in listing {
        var k :| 0 <= k < |listing| && listing[k] == w;
        assert a in listing[..k] ==> a in listing;
      }
    }
    forall w | w in s.m + multiset(listing) ensures Normal(w) {
      if w in listing {
        var k :| 0 <= k < |listing| && listing[k] == w;
      }
    }
  }

  // ---------- deletions ----------

  lemma DirDeletedMarks(s: State, dir: Word, s': State, w: Word)
    requires Counts(s.t, s.m) && DirDeleted(s.t, s.m, dir, s'.t, s'.m) && dir != []
    ensures Shown(s'.t, w) <==> Shown(s.t, w) && w != dir && !(dir + [SLASH] <= w)
  {
    if dir + [SLASH] <= w {
      assert s'.m[w] == 0;
    } else if w != dir && !(dir + [SLASH] <= w) && Shown(s.t, w) {
      assert s'.m[w] == s.m[w];
      OutstandingLinked(s'.t, s'.m, w, w);
      assert SameRecord(s.t, s'.t, w);
    } else if w != dir && !(dir + [SLASH] <= w) && w in s'.t {
      assert SameRecord(s.t, s'.t, w);
    }
  }

  lemma DeleteDirKeeps(s: State, dir: Word, s': State)
    requires Inv(s) && dir in s.m && DirDeleted(s.t, s.m, dir, s'.t, s'.m)
    ensures Inv(s')
  {
    assert Normal(dir);
    forall w, a | Shown(s'.t, w) && Ancestor(a, w) ensures Shown(s'.t, a) {
      DirDeletedMarks(s, dir, s', w);
      DirDeletedMarks(s, dir, s', a);
      if dir + [SLASH] <= a {
        PrefixTrans(dir + [SLASH], a, w);
      }
    }
    forall w | w in s'.m ensures Normal(w) {
      assert w in s.m;
    }
  }

  /** deletefile removes a copy of the path itself exactly when no other stored path continues it. */
  lemma DeleteFileHits(s: State, path: Word)
    requires Counts(s.t, s.m) && path in s.t && path != []
    ensures NextEntry(Unmark(s.t, path), path) == path <==> Lonely(s.m, path)
  {
    var u := Unmark(s.t, path);
    UnmarkCounts(s.t, s.m, path);
    CountsRooted(u, s.m);
    RecIsLeast(u, path);
    if Lonely(s.m, path) {
      forall c: Letter ensures path + [c] !in u {
        if path + [c] in u {
          BelowWitness(s.m, path + [c]);
          var x :| x in s.m && path + [c] <= x;
          PrefixTrans(path, path + [c], x);
        }
      }
    } else {
      var x :| x in s.m && path <= x && x != path;
      NextLetter(path, x);
      OutstandingLinked(u, s.m, x, path + [x[|path|]]);
    }
  }

  /** deletefile takes exactly two marks away: that of the path and that of the word nextentry found. */
  lemma DeleteFileMarks(s: State, path: Word, y: Word)
    requires Inv(s) && path in s.t && path != [] && y == NextEntry(Unmark(s.t, path), path)
    ensures y in s.m && Counts(FileDeleted(s.t, path), s.m - multiset{y})
    ensures forall w :: Shown(FileDeleted(s.t, path), w) <==> Shown(s.t, w) && w != path && w != y
  {
    var u := Unmark(s.t, path);
    UnmarkCounts(s.t, s.m, path);
    NextEntryOutstanding(u, s.m, path);
    DeleteCounts(u, s.m, y);
    var t' := FileDeleted(s.t, path);
    forall w ensures Shown(t', w) <==> Shown(s.t, w) && w != path && w != y {
      if w in s.t && w <= y && w != y && w != [] && Shown(s.t, w) {
        // w is outstanding next to y, so its count is above one
        BelowRemove(s.m, y, w);
        BelowMember(s.m - multiset{y}, w, w);
      }
    }
  }

  /** The namespace stays closed exactly when neither the path nor the word that was deleted with it
      is the directory of another listed path. */
  lemma DeleteFileClosedExactly(s: State, path: Word, y: Word)
    requires Inv(s) && path in s.t && path != [] && y == NextEntry(Unmark(s.t, path), path)
    ensures Closed(FileDeleted(s.t, path))
            <==> forall z | Shown(s.t, z) && z != path && z != y :: !Ancestor(path, z) && !Ancestor(y, z)
  {
    DeleteFileMarks(s, path, y);
    assert y in s.m;
  }

  lemma DeleteFileKeeps(s: State, path: Word)
    requires Inv(s) && path in s.t && path != [] && Lonely(s.m, path)
    ensures path in s.m && Inv(State(FileDeleted(s.t, path), s.m - multiset{path}))
  {
    DeleteFileHits(s, path);
    DeleteFileMarks(s, path, path);
    DeleteFileClosedExactly(s, path, path);
    forall z | Shown(s.t, z) && z != path ensures !Ancestor(path, z) {
      assert z in s.m;
      PrefixOfAncestor(path, z);
    }
  }

  lemma PrefixOfAncestor(a: Word, z: Word)
    ensures Ancestor(a, z) ==> a <= z && a != z
  {}

  // ---------- copydir ----------

  /** The words that a fully acknowledged copydir creates. */
  ghost predicate CopiedWord(cells: seq<Entry>, path2: Word, w: Word) {
    exists k :: 0 <= k < |cells| && w in ComponentPaths(Target(path2, cells[k].val))
  }

  ghost predicate AllYes(answer: nat -> Answer) {
    forall k :: answer(k).Acknowledged? && answer(k).yes
  }

  lemma {:induction false} CopyIntoFacts(s: State, cells: seq<Entry>, path2: Word, answer: nat -> Answer, k: nat)
    requires Inv(s)
    ensures Inv(State(CopyInto(s.t, cells, path2, answer, k), s.m + CopyBag(cells, path2, answer, k)))
    ensures forall w :: Shown(s.t, w) ==> Shown(CopyInto(s.t, cells, path2, answer, k), w)
    ensures forall w :: Shown(CopyInto(s.t, cells, path2, answer, k), w) ==>
        Shown(s.t, w) || CopiedWord(cells, path2, w)
    ensures AllYes(answer) ==>
      forall w :: CopiedWord(cells, path2, w) ==> Shown(CopyInto(s.t, cells, path2, answer, k), w)
    ensures forall w | w in s.t && !CopiedWord(cells, path2, w) ::
        SameRecord(s.t, CopyInto(s.t, cells, path2, answer, k), w)
    decreases cells
  {
    if cells == [] || (answer(k).Acknowledged? && !answer(k).yes) {
      assert s.m + multiset{} == s.m;
    } else {
      var u := if answer(k).NoServer? then s
               else Inserted(s, ComponentPaths(Target(path2, cells[0].val)), answer(k).index);
      if answer(k).Acknowledged? {
        CreateKeeps(s, Target(path2, cells[0].val), answer(k).index);
        InsertAllFacts(s.t, s.m, ComponentPaths(Target(path2, cells[0].val)), answer(k).index);
      }
      CopyIntoFacts(u, cells[1..], path2, answer, k + 1);
      var t' := CopyInto(u.t, cells[1..], path2, answer, k + 1);
      assert u.m + CopyBag(cells[1..], path2, answer, k + 1) == s.m + CopyBag(cells, path2, answer, k);
      forall w ensures CopiedWord(cells, path2, w)
                       <==> w in ComponentPaths(Target(path2, cells[0].val)) || CopiedWord(cells[1..], path2, w) {
        CopiedSplit(cells, path2, w);
      }
      forall w | w in s.t && !CopiedWord(cells, path2, w) ensures SameRecord(s.t, t', w) {
        assert SameRecord(s.t, u.t, w) && SameRecord(u.t, t', w);
      }
    }
  }

  lemma CopiedSplit(cells: seq<Entry>, path2: Word, w: Word)
    requires cells != []
    ensures CopiedWord(cells, path2, w)
            <==> w in ComponentPaths(Target(path2, cells[0].val)) || CopiedWord(cells[1..], path2, w)
  {
    if CopiedWord(cells[1..], path2, w) {
      var k :| 0 <= k < |cells[1..]| && w in ComponentPaths(Target(path2, cells[1..][k].val));
      assert cells[k + 1] == cells[1..][k];
    }
    if CopiedWord(cells, path2, w) && !(w in ComponentPaths(Target(path2, cells[0].val))) {
      var k :| 0 <= k < |cells| && w in ComponentPaths(Target(path2, cells[k].val));
      assert cells[k] == cells[1..][k - 1];
    }
  }
}
