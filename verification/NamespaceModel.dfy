/** What the naming server's commands do to the counted trie, as relations between values. */
module NamespaceModel {
  import opened Words
  import opened PathNames
  import opened TrieModel
  import opened TrieWalk
  import opened TrieReading

  // ---------- create, registration, copydir: insertions ----------

  /** Insert the words in order, each with one server three times. */
  ghost function InsertAll(t: Trie, ws: seq<Word>, server: int): Trie
    decreases ws
  {
    if ws == [] then t else InsertAll(Insert(t, ws[0], server, server, server), ws[1..], server)
  }

  /** What came of one create request of copydir. NoServer: none was up, or sending returned 0; the next
      entry follows. Acknowledged with yes: the ticket YES, or a connection that closed instead of an
      answer. Acknowledged without yes: another ticket, or a failed send or receive. */
  datatype Answer = NoServer | Acknowledged(index: int, yes: bool)

  /** copydir: every listed entry is created again behind path2; a refusal ends the command. */
  ghost function CopyInto(t: Trie, cells: seq<Entry>, path2: Word, answer: nat -> Answer, k: nat): Trie
    decreases cells
  {
    if cells == [] then t
    else match answer(k)
      case NoServer => CopyInto(t, cells[1..], path2, answer, k + 1)
      case Acknowledged(index, yes) =>
        if !yes then t
        else
          CopyInto(InsertAll(t, ComponentPaths(Target(path2, cells[0].val)), index), cells[1..], path2, answer, k + 1)
  }

  ghost function CopyDirDone(t: Trie, path1: Word, path2: Word, answer: nat -> Answer): Trie {
    if path1 in t && path2 in t
    then CopyInto(t, Collected(t, ListedBelow(t, path1)), path2, answer, 0)
    else t
  }

  function Target(path2: Word, val: Word): Word {
    path2 + [SLASH] + val
  }

  // ---------- deletedir, deletefile ----------

  /** What both deletes ask of a path: that searchWords finds a server for it. */
  ghost predicate HasPorts(t: Trie, w: Word) {
    w in t && t[w].ports != []
  }

  /** q carries the same mark and the same ports in both tries. */
  ghost predicate SameRecord(t: Trie, u: Trie, q: Word) {
    q in t && q in u && t[q].isEnd == u[q].isEnd && t[q].ports == u[q].ports
  }

  /** Nothing from d on is outstanding any more; all other words keep multiplicity, mark and ports. */
  ghost predicate Drained(t: Trie, m: Bag, d: Word, t': Trie, m': Bag) {
    && Counts(t', m')
    && (forall w :: m'[w] == if d <= w then 0 else m[w])
    && (forall q | q in t' && !(d <= q) :: SameRecord(t, t', q))
  }

  /** deletedir: the subtree is drained and one copy of the directory itself goes, with its mark. */
  ghost predicate DirDeleted(t: Trie, m: Bag, dir: Word, t': Trie, m': Bag) {
    && Counts(t', m')
    && (forall w :: m'[w] == if dir + [SLASH] <= w then 0 else (m - multiset{dir})[w])
    && (forall q | q in t' && q != dir && !(dir + [SLASH] <= q) :: SameRecord(t, t', q))
    && (dir in t' ==> dir in t && !t'[dir].isEnd && t'[dir].ports == t[dir].ports)
  }

  ghost function Unmark(t: Trie, w: Word): Trie
    requires w in t
  {
    t[w := t[w].(isEnd := false)]
  }

  /** deletefile clears the mark of the path and then deletes what nextentry finds from it. */
  ghost function FileDeleted(t: Trie, path: Word): Trie
    requires path in t
  {
    Delete(Unmark(t, path), NextEntry(Unmark(t, path), path))
  }

  lemma UnmarkCounts(t: Trie, m: Bag, w: Word)
    requires Counts(t, m) && w in t
    ensures Counts(Unmark(t, w), m)
  {
    forall p | p in Unmark(t, w) ensures Sound(Unmark(t, w)[p], m, p) {}
  }

  /** What the drain loop keeps: words outside d keep multiplicity, mark and ports. */
  ghost predicate Draining(t: Trie, m: Bag, d: Word, t1: Trie, m1: Bag) {
    && Counts(t1, m1)
    && (forall x | !(d <= x) :: m1[x] == m[x])
    && (forall q | q in t1 && !(d <= q) :: SameRecord(t, t1, q))
  }

  lemma DrainStep(t: Trie, m: Bag, d: Word, t1: Trie, m1: Bag, w: Word)
    requires Draining(t, m, d, t1, m1) && w in m1 && d <= w
    ensures Draining(t, m, d, Delete(t1, w), m1 - multiset{w})
    ensures Below(m1 - multiset{w}, d) == Below(m1, d) - 1
  {
    BelowRemove(m1, w, d);
    DeleteCounts(t1, m1, w);
    forall q | q in Delete(t1, w) && !(d <= q) ensures SameRecord(t, Delete(t1, w), q) {
      assert SameRecord(t, t1, q);
    }
  }

  /** The next n words that the drain loop of a directory finds from d on. */
  ghost function DrainWords(t: Trie, d: Word, n: nat): seq<Word>
    decreases n
  {
    if n == 0 then [] else [NextEntry(t, d)] + DrainWords(Delete(t, NextEntry(t, d)), d, n - 1)
  }

  lemma DrainEnd(t: Trie, m: Bag, d: Word, t1: Trie, m1: Bag)
    requires Draining(t, m, d, t1, m1) && Below(m1, d) == 0
    ensures Drained(t, m, d, t1, m1)
  {
    forall w ensures m1[w] == if d <= w then 0 else m[w] {
      if d <= w && w in m1 {
        BelowMember(m1, d, w);
      }
    }
  }

  lemma DirDeletedFrom(t: Trie, m: Bag, dir: Word, t1: Trie, m1: Bag)
    requires Counts(t, m) && Drained(t, m, dir + [SLASH], t1, m1) && dir in m
    ensures dir in m1 && DirDeleted(t, m, dir, Delete(t1, dir), m1 - multiset{dir})
  {
    DeleteCounts(t1, m1, dir);
    var t', m' := Delete(t1, dir), m1 - multiset{dir};
    forall q | q in t' && q != dir && !(dir + [SLASH] <= q) ensures SameRecord(t, t', q) {
      assert SameRecord(t, t1, q);
    }
    if dir in t' {
      assert SameRecord(t, t1, dir);
    }
  }

  /** After the drain the directory is still linked exactly when something other than its content starts
      with its name. */
  lemma StaysLinked(t: Trie, m: Bag, dir: Word, t1: Trie, m1: Bag)
    requires Counts(t, m) && Drained(t, m, dir + [SLASH], t1, m1) && dir != []
    ensures dir in t1 <==> exists x :: x in m && dir <= x && !(dir + [SLASH] <= x)
  {
    BelowPositive(m1, dir);
    if x :| x in m && dir <= x && !(dir + [SLASH] <= x) {
      assert x in m1;
    }
    if x :| x in m1 && dir <= x {
      assert x in m && !(dir + [SLASH] <= x);
    }
  }

  /** deletefile: the word nextentry finds from the unmarked path goes; it was outstanding. */
  ghost predicate FileGone(t: Trie, m: Bag, path: Word, t': Trie, m': Bag)
    requires path in t
  {
    var w := NextEntry(Unmark(t, path), path);
    t' == FileDeleted(t, path) && w in m && m' == m - multiset{w} && Counts(t', m')
  }
}
