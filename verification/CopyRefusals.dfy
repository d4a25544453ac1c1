/** What a copydir leaves behind when some of its creates are not acknowledged, or one is refused. */
module CopyRefusals {
  import opened Words
  import opened PathNames
  import opened TrieModel
  import opened TrieWalk
  import opened TrieReading
  import opened NamespaceModel
  import opened Namespace
  import opened NamespaceRuns

  predicate Refused(a: Answer) {
    a.Acknowledged? && !a.yes
  }

  predicate Made(a: Answer) {
    a.Acknowledged? && a.yes
  }

  /** The number of entries before the first refusal. */
  ghost predicate StopsAt(cells: seq<Entry>, answer: nat -> Answer, r: nat) {
    r <= |cells| && (forall k: nat | k < r :: !Refused(answer(k))) && (r < |cells| ==> Refused(answer(r)))
  }

  /** Entry k is created, and w is one of the paths that this inserts. */
  ghost predicate Makes(cells: seq<Entry>, path2: Word, answer: nat -> Answer, k: nat, w: Word) {
    k < |cells| && Made(answer(k)) && w in ComponentPaths(path2 + ['/'] + cells[k].val)
  }

  /** The trie after the first r entries, none of which is refused. */
  ghost function CreatedUpTo(t: Trie, cells: seq<Entry>, path2: Word, answer: nat -> Answer, r: nat): Trie
    requires r <= |cells|
  {
    if r == 0 then t
    else
      var u := CreatedUpTo(t, cells, path2, answer, r - 1);
      if Made(answer(r - 1)) then InsertAll(u, ComponentPaths(path2 + ['/'] + cells[r - 1].val), answer(r - 1).index)
      else u
  }

  /** What the entries from j up to r add to the outstanding words. */
  ghost function Added(cells: seq<Entry>, path2: Word, answer: nat -> Answer, j: nat, r: nat): Bag
    requires j <= r <= |cells|
    decreases r - j
  {
    if j == r then multiset{}
    else
      (if Made(answer(j)) then multiset(ComponentPaths(path2 + ['/'] + cells[j].val)) else multiset{})
      + Added(cells, path2, answer, j + 1, r)
  }

  lemma {:induction false} CopyIntoFrom(
    t: Trie, cells: seq<Entry>, path2: Word, answer: nat -> Answer, r: nat, j: nat)
    requires StopsAt(cells, answer, r) && j <= r
    ensures CopyInto(CreatedUpTo(t, cells, path2, answer, j), cells[j..], path2, answer, j)
            == CreatedUpTo(t, cells, path2, answer, r)
    decreases r - j
  {
    if j < r {
      assert cells[j..][1..] == cells[j + 1..] && cells[j..][0] == cells[j];
      assert !Refused(answer(j));
      CopyIntoFrom(t, cells, path2, answer, r, j + 1);
    }
  }

  lemma {:induction false} CopyBagFrom(cells: seq<Entry>, path2: Word, answer: nat -> Answer, r: nat, j: nat)
    requires StopsAt(cells, answer, r) && j <= r
    ensures CopyBag(cells[j..], path2, answer, j) == Added(cells, path2, answer, j, r)
    decreases r - j
  {
    if j < r {
      assert cells[j..][1..] == cells[j + 1..] && cells[j..][0] == cells[j];
      assert !Refused(answer(j));
      CopyBagFrom(cells, path2, answer, r, j + 1);
      assert multiset{} + Added(cells, path2, answer, j + 1, r) == Added(cells, path2, answer, j + 1, r);
    }
  }

  lemma {:induction false} CopyIntoCounted(
    t: Trie, m: Bag, cells: seq<Entry>, path2: Word, answer: nat -> Answer, k: nat)
    requires Counts(t, m)
    ensures Counts(CopyInto(t, cells, path2, answer, k), m + CopyBag(cells, path2, answer, k))
    decreases cells
  {
    if cells == [] || Refused(answer(k)) {
      assert m + multiset{} == m;
    } else if Made(answer(k)) {
      var ws, i := ComponentPaths(Target(path2, cells[0].val)), answer(k).index;
      var later := CopyBag(cells[1..], path2, answer, k + 1);
      InsertAllFacts(t, m, ws, i);
      CopyIntoCounted(InsertAll(t, ws, i), m + multiset(ws), cells[1..], path2, answer, k + 1);
      assert m + (multiset(ws) + later) == m + multiset(ws) + later;
    } else {
      CopyIntoCounted(t, m, cells[1..], path2, answer, k + 1);
    }
  }

  /** w has become known to server x by one of the first r entries. */
  ghost predicate Gained(cells: seq<Entry>, path2: Word, answer: nat -> Answer, r: nat, w: Word, x: int) {
    exists k: nat :: k < r && Makes(cells, path2, answer, k, w) && answer(k).index == x
  }

  ghost predicate Reached(cells: seq<Entry>, path2: Word, answer: nat -> Answer, r: nat, w: Word) {
    exists k: nat :: k < r && Makes(cells, path2, answer, k, w)
  }

  lemma ReachedStep(cells: seq<Entry>, path2: Word, answer: nat -> Answer, r: nat, w: Word, x: int)
    requires 0 < r <= |cells|
    ensures Reached(cells, path2, answer, r, w) <==>
            Reached(cells, path2, answer, r - 1, w) || Makes(cells, path2, answer, r - 1, w)
    ensures Gained(cells, path2, answer, r, w, x) <==>
            Gained(cells, path2, answer, r - 1, w, x)
            || (Makes(cells, path2, answer, r - 1, w) && answer(r - 1).index == x)
  {}

  lemma {:induction false} CreatedCounts(
    t: Trie, m: Bag, cells: seq<Entry>, path2: Word, answer: nat -> Answer, r: nat) returns (b: Bag)
    requires Counts(t, m) && r <= |cells|
    ensures Counts(CreatedUpTo(t, cells, path2, answer, r), b)
  {
    if r == 0 {
      b := m;
    } else {
      b := CreatedCounts(t, m, cells, path2, answer, r - 1);
      if Made(answer(r - 1)) {
        var ws := ComponentPaths(path2 + ['/'] + cells[r - 1].val);
        InsertAllFacts(CreatedUpTo(t, cells, path2, answer, r - 1), b, ws, answer(r - 1).index);
        b := b + multiset(ws);
      }
    }
  }

  lemma CreatedStep(
    t: Trie, m: Bag, cells: seq<Entry>, path2: Word, answer: nat -> Answer, r: nat, w: Word, x: int)
    requires Counts(t, m) && 0 < r <= |cells|
    ensures var u, v := CreatedUpTo(t, cells, path2, answer, r - 1), CreatedUpTo(t, cells, path2, answer, r);
      var now := Makes(cells, path2, answer, r - 1, w);
      && (Shown(v, w) <==> Shown(u, w) || now)
      && (x in At(v, w).ports <==> x in At(u, w).ports || (now && answer(r - 1).index == x))
  {
    if Made(answer(r - 1)) {
      var b := CreatedCounts(t, m, cells, path2, answer, r - 1);
      InsertAllAt(CreatedUpTo(t, cells, path2, answer, r - 1), b, ComponentPaths(path2 + ['/'] + cells[r - 1].val),
                  answer(r - 1).index, w, x);
    }
  }

  lemma {:induction false} CreatedFacts(
    t: Trie, m: Bag, cells: seq<Entry>, path2: Word, answer: nat -> Answer, r: nat, w: Word, x: int)
    requires Counts(t, m) && r <= |cells|
    ensures var u := CreatedUpTo(t, cells, path2, answer, r);
      && (Shown(u, w) <==> Shown(t, w) || Reached(cells, path2, answer, r, w))
      && (x in At(u, w).ports <==> x in At(t, w).ports || Gained(cells, path2, answer, r, w, x))
  {
    if r != 0 {
      CreatedFacts(t, m, cells, path2, answer, r - 1, w, x);
      ReachedStep(cells, path2, answer, r, w, x);
      CreatedStep(t, m, cells, path2, answer, r, w, x);
    }
  }

  lemma InsertAllAt(t: Trie, m: Bag, ws: seq<Word>, i: int, w: Word, x: int)
    requires Counts(t, m)
    ensures Shown(InsertAll(t, ws, i), w) <==> Shown(t, w) || w in ws
    ensures x in At(InsertAll(t, ws, i), w).ports <==> x in At(t, w).ports || (w in ws && x == i)
  {
    InsertAllFacts(t, m, ws, i);
    InsertAllPortsAre(t, ws, i, w);
  }

  lemma MadeIs(cells: seq<Entry>, path2: Word, answer: nat -> Answer, r: nat, w: Word, x: int)
    requires StopsAt(cells, answer, r)
    ensures Reached(cells, path2, answer, r, w) <==> exists k: nat ::
      k < r && answer(k).Acknowledged? && w in ComponentPaths(path2 + ['/'] + cells[k].val)
    ensures Gained(cells, path2, answer, r, w, x) <==> exists k: nat ::
      k < r && answer(k).Acknowledged? && answer(k).index == x && w in ComponentPaths(path2 + ['/'] + cells[k].val)
  {
    if k: nat :| k < r && answer(k).Acknowledged? && w in ComponentPaths(path2 + ['/'] + cells[k].val) {
      assert !Refused(answer(k)) && Makes(cells, path2, answer, k, w);
    }
    if k: nat :| k < r && answer(k).Acknowledged? && answer(k).index == x
                 && w in ComponentPaths(path2 + ['/'] + cells[k].val) {
      assert !Refused(answer(k)) && Makes(cells, path2, answer, k, w);
    }
  }

  /** Copydir goes on behind a missing server and ends with the first refusal: a path is listed afterwards exactly
      when it was before or is inserted with an entry in front of the refusal that a server acknowledged, and its
      ports grow by exactly the servers of those entries. */
  lemma CopyIntoExactly(
    t: Trie, m: Bag, cells: seq<Entry>, path2: Word, answer: nat -> Answer, r: nat, w: Word, x: int)
    requires Counts(t, m) && StopsAt(cells, answer, r)
    ensures Shown(CopyInto(t, cells, path2, answer, 0), w) <==>
      || Shown(t, w)
      || exists k: nat :: k < r && answer(k).Acknowledged? && w in ComponentPaths(path2 + ['/'] + cells[k].val)
    ensures x in At(CopyInto(t, cells, path2, answer, 0), w).ports <==>
      || x in At(t, w).ports
      || exists k: nat :: k < r && answer(k).Acknowledged? && answer(k).index == x
                          && w in ComponentPaths(path2 + ['/'] + cells[k].val)
  {
    CopyIntoFrom(t, cells, path2, answer, r, 0);
    assert cells[0..] == cells;
    CreatedFacts(t, m, cells, path2, answer, r, w, x);
    MadeIs(cells, path2, answer, r, w, x);
  }

  /** And the counts are those of one more copy of each path inserted with such an entry. */
  lemma CopyIntoCounts(t: Trie, m: Bag, cells: seq<Entry>, path2: Word, answer: nat -> Answer, r: nat)
    requires Counts(t, m) && StopsAt(cells, answer, r)
    ensures CopyBag(cells, path2, answer, 0) == Added(cells, path2, answer, 0, r)
    ensures Counts(CopyInto(t, cells, path2, answer, 0), m + Added(cells, path2, answer, 0, r))
  {
    CopyBagFrom(cells, path2, answer, r, 0);
    assert cells[0..] == cells;
    CopyIntoCounted(t, m, cells, path2, answer, 0);
  }

  /** Of the whole command: when both paths are linked, the listed paths below the source are created from the last
      one in dictionary order to the first, up to the first refusal. */
  lemma CopyDirExactly(s: State, path1: Word, path2: Word, answer: nat -> Answer, r: nat, w: Word)
    requires Inv(s) && path1 != [] && Normal(path2)
    requires StopsAt(Collected(s.t, ListedBelow(s.t, path1)), answer, r)
    ensures r <= |ListedBelow(s.t, path1)| && Increasing(ListedBelow(s.t, path1))
    ensures forall x :: x in ListedBelow(s.t, path1) <==> Shown(s.t, x) && Ancestor(path1, x)
    ensures var ws := ListedBelow(s.t, path1);
      Shown(CopyDirDone(s.t, path1, path2, answer), w) <==>
      || Shown(s.t, w)
      || (path1 in s.t && path2 in s.t && exists k: nat ::
            k < r && answer(k).Acknowledged? && Component(w, path2 + ['/'] + ws[|ws| - 1 - k]))
  {
    var ws := ListedBelow(s.t, path1);
    CollectedAll(s.t, ws);
    ListedInOrder(s, path1);
    CopyIntoExactly(s.t, s.m, Collected(s.t, ws), path2, answer, r, w, 0);
    forall k: nat | k < r
      ensures w in ComponentPaths(path2 + ['/'] + Collected(s.t, ws)[k].val)
              <==> Component(w, path2 + ['/'] + ws[|ws| - 1 - k])
    {
      TargetComponents(s, path1, path2, ws[|ws| - 1 - k], w);
    }
  }

  lemma ListedInOrder(s: State, path1: Word)
    requires Inv(s) && path1 != []
    ensures Increasing(ListedBelow(s.t, path1))
    ensures forall x :: x in ListedBelow(s.t, path1) <==> Shown(s.t, x) && Ancestor(path1, x)
  {
    forall x ensures x in ListedBelow(s.t, path1) <==> Shown(s.t, x) && Ancestor(path1, x) {
      ListedBelowAre(s, path1, x);
    }
    CountsRooted(s.t, s.m);
    if path1 + [SLASH] in s.t {
      ListingFacts(s.t, path1 + [SLASH], 1);
    }
  }

  lemma TargetComponents(s: State, path1: Word, path2: Word, x: Word, w: Word)
    requires Inv(s) && path1 != [] && Normal(path2) && x in ListedBelow(s.t, path1)
    ensures w in ComponentPaths(path2 + ['/'] + x) <==> Component(w, path2 + ['/'] + x)
  {
    ListedBelowAre(s, path1, x);
    ListedIsNormal(s, x);
    NormalTarget(path2, x);
    ComponentPathsOfNormal(path2 + ['/'] + x, w);
  }

  lemma CollectedAll(t: Trie, ws: seq<Word>)
    ensures |Collected(t, ws)| == |ws|
    ensures forall k | 0 <= k < |ws| :: Collected(t, ws)[k].val == ws[|ws| - 1 - k]
  {
    forall k | 0 <= k < |ws| ensures |Collected(t, ws)| == |ws| && Collected(t, ws)[k].val == ws[|ws| - 1 - k] {
      CollectedAt(t, ws, |ws| - 1 - k);
    }
    if ws == [] {
      assert Collected(t, ws) == [];
    }
  }
}
