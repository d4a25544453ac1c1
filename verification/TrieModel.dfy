/** The counted trie as a value: one record per linked node, addressed by the word that leads to it.
    `Below` counts the outstanding insertions at or below a node; `Counts` is the counting invariant. */
module TrieModel {
  import opened Words

  datatype Info = Info(count: int, isEnd: bool, ports: seq<int>)
  type Trie = map<Word, Info>
  type Bag = multiset<Word>

  const EMPTY_INFO := Info(0, false, [])
  const EMPTY_TRIE: Trie := map[[] := EMPTY_INFO]

  // ---------- port lists ----------

  /** checkForPortExistance followed by insertfront. */
  function AddPort(ports: seq<int>, x: int): seq<int> {
    if x in ports then ports else [x] + ports
  }

  function AddPorts(ports: seq<int>, a: int, b: int, c: int): seq<int> {
    AddPort(AddPort(AddPort(ports, a), b), c)
  }

  ghost predicate NoDup(s: seq<int>) {
    forall i, j | 0 <= i < j < |s| :: s[i] != s[j]
  }

  lemma AddPortsFacts(ports: seq<int>, a: int, b: int, c: int)
    requires NoDup(ports)
    ensures NoDup(AddPorts(ports, a, b, c)) && AddPorts(ports, a, b, c) != []
    ensures forall x :: x in AddPorts(ports, a, b, c) <==> x in ports || x == a || x == b || x == c
  {}

  // ---------- operations ----------

  ghost function At(t: Trie, q: Word): Info {
    if q in t then t[q] else EMPTY_INFO
  }

  /** The word is marked: the path is listed. */
  ghost predicate Shown(t: Trie, w: Word) {
    w in t && t[w].isEnd
  }

  /** insertTries3: every node on the path of w is counted once more, missing ones are created,
      and the node of w is marked and given its ports. */
  ghost function Insert(t: Trie, w: Word, a: int, b: int, c: int): Trie {
    map q | q in t.Keys + Prefixes(w) ::
      if q == w then Info(At(t, q).count + 1, true, AddPorts(At(t, q).ports, a, b, c))
      else if q <= w then At(t, q).(count := At(t, q).count + 1)
      else t[q]
  }

  /** DeleteNode: every node on the path of w is counted once less, the mark of w is cleared,
      and the non-root path nodes whose count reached zero are gone. */
  ghost function Delete(t: Trie, w: Word): Trie {
    map q | q in t && !(q != [] && q <= w && t[q].count == 1) ::
      if q == w then t[q].(count := t[q].count - 1, isEnd := false)
      else if q <= w then t[q].(count := t[q].count - 1)
      else t[q]
  }

  /** The non-root path nodes of w that are counted once: the walk counts them zero and frees them. */
  ghost function Zeros(t: Trie, w: Word): set<Word> {
    set q | q in t && q != [] && q <= w && t[q].count == 1
  }

  /** The node of q hangs on such a node. */
  ghost predicate Lost(t: Trie, w: Word, q: Word) {
    exists v :: v in Zeros(t, w) && v <= q
  }

  /** What DeleteNode does to a word that is linked, outstanding or not. */
  ghost function DeleteLinked(t: Trie, w: Word): Trie {
    map q | q in t && !Lost(t, w, q) ::
      if q == w then t[q].(count := t[q].count - 1, isEnd := false)
      else if q <= w then t[q].(count := t[q].count - 1)
      else t[q]
  }

  /** Where the walk along w stands after i rounds. */
  ghost function Stop(w: Word, i: nat): Word {
    if i <= |w| then w[..i] else w
  }

  /** One round of the insertion walk: count the node p, then create the next one if it is missing. */
  ghost function Round(u: Trie, p: Word, next: Word): Trie {
    var v := u[p := At(u, p).(count := At(u, p).count + 1)];
    if next in v then v else v[next := EMPTY_INFO]
  }

  /** The trie after i rounds of the insertion walk along w. */
  ghost function Walked(t: Trie, w: Word, i: nat): Trie {
    if i == 0 then t else Round(Walked(t, w, i - 1), Stop(w, i - 1), Stop(w, i))
  }

  lemma {:induction false} WalkedAt(t: Trie, w: Word, i: nat, q: Word)
    requires [] in t && i <= |w| + 1
    ensures q in Walked(t, w, i) <==> q in t || (q <= w && |q| <= i)
    ensures At(Walked(t, w, i), q)
            == At(t, q).(count := At(t, q).count + (if q <= w && |q| < i then 1 else 0))
  {
    if i != 0 {
      WalkedAt(t, w, i - 1, q);
      if q <= w {
        assert q == w[..|q|];
      }
    } else if q <= w && |q| == 0 {
      assert q == [];
    }
  }

  /** The end of the insertion: mark the node of w and give it the ports it does not know yet. */
  ghost function Marked(u: Trie, w: Word, a: int, b: int, c: int): Trie {
    u[w := At(u, w).(isEnd := true, ports := AddPorts(At(u, w).ports, a, b, c))]
  }

  lemma WalkedEnd(t: Trie, w: Word, a: int, b: int, c: int)
    requires [] in t
    ensures Insert(t, w, a, b, c) == Marked(Walked(t, w, |w| + 1), w, a, b, c)
  {
    WalkedAt(t, w, |w| + 1, w);
    var r := Marked(Walked(t, w, |w| + 1), w, a, b, c);
    forall q ensures q in Insert(t, w, a, b, c) <==> q in r {
      WalkedAt(t, w, |w| + 1, q);
      InPrefixes(q, w);
    }
    forall q | q in r ensures Insert(t, w, a, b, c)[q] == r[q] {
      WalkedAt(t, w, |w| + 1, q);
      InPrefixes(q, w);
    }
  }

  // ---------- outstanding insertions ----------

  /** The number of outstanding insertions (with multiplicity) of words that extend p. */
  ghost function Below(m: Bag, p: Word): nat
    decreases |m|
  {
    if m == multiset{} then 0
    else
      var w :| w in m;
      (if p <= w then 1 else 0) + Below(m - multiset{w}, p)
  }

  lemma {:induction false} BelowAdd(m: Bag, w: Word, p: Word)
    ensures Below(m + multiset{w}, p) == Below(m, p) + (if p <= w then 1 else 0)
    decreases |m|
  {
    var n := m + multiset{w};
    var x :| x in n && Below(n, p) == (if p <= x then 1 else 0) + Below(n - multiset{x}, p);
    if x == w {
      assert n - multiset{x} == m;
    } else {
      var k := m - multiset{x};
      assert n - multiset{x} == k + multiset{w} && k + multiset{x} == m;
      BelowAdd(k, w, p);
      BelowAdd(k, x, p);
    }
  }

  lemma BelowRemove(m: Bag, w: Word, p: Word)
    requires w in m
    ensures Below(m - multiset{w}, p) == Below(m, p) - (if p <= w then 1 else 0)
  {
    BelowAdd(m - multiset{w}, w, p);
    assert m - multiset{w} + multiset{w} == m;
  }

  lemma {:induction false} BelowMonotone(m: Bag, p: Word, q: Word)
    requires p <= q
    ensures Below(m, q) <= Below(m, p)
    decreases |m|
  {
    if m != multiset{} {
      var w :| w in m;
      BelowRemove(m, w, p);
      BelowRemove(m, w, q);
      BelowMonotone(m - multiset{w}, p, q);
    }
  }

  lemma {:induction false} BelowWitness(m: Bag, p: Word)
    requires Below(m, p) > 0
    ensures exists u :: u in m && p <= u
    decreases |m|
  {
    var w :| w in m;
    if !(p <= w) {
      BelowRemove(m, w, p);
      BelowWitness(m - multiset{w}, p);
      var u :| u in m - multiset{w} && p <= u;
      assert u in m;
    }
  }

  lemma BelowMember(m: Bag, p: Word, u: Word)
    requires u in m && p <= u
    ensures Below(m, p) > 0
  {
    BelowRemove(m, u, p);
  }

  lemma BelowPositive(m: Bag, p: Word)
    ensures Below(m, p) > 0 <==> exists u :: u in m && p <= u
  {
    if Below(m, p) > 0 {
      BelowWitness(m, p);
    } else if exists u :: u in m && p <= u {
      var u :| u in m && p <= u;
      BelowMember(m, p, u);
    }
  }

  // ---------- the counting invariant ----------

  ghost predicate Sound(i: Info, m: Bag, p: Word) {
    i.count == Below(m, p) && (i.isEnd ==> p in m && i.ports != []) && NoDup(i.ports)
  }

  /** A node is linked exactly when it is the root or has something outstanding at or below it,
      its count is that number, and a marked node is outstanding and knows a port. */
  ghost predicate Counts(t: Trie, m: Bag) {
    && (forall p :: p in t <==> p == [] || Below(m, p) > 0)
    && (forall p | p in t :: Sound(t[p], m, p))
  }

  lemma EmptyCounts()
    ensures Counts(EMPTY_TRIE, multiset{})
  {}

  lemma InsertCounts(t: Trie, m: Bag, w: Word, a: int, b: int, c: int)
    requires Counts(t, m)
    ensures Counts(Insert(t, w, a, b, c), m + multiset{w})
  {
    var t', m' := Insert(t, w, a, b, c), m + multiset{w};
    forall p ensures p in t' <==> p == [] || Below(m', p) > 0 {
      BelowAdd(m, w, p);
      InPrefixes(p, w);
    }
    forall p | p in t' ensures Sound(t'[p], m', p) {
      BelowAdd(m, w, p);
      InPrefixes(p, w);
      if p == w {
        AddPortsFacts(At(t, p).ports, a, b, c);
      }
    }
  }

  lemma DeleteCounts(t: Trie, m: Bag, w: Word)
    requires Counts(t, m) && w in m
    ensures Counts(Delete(t, w), m - multiset{w})
  {
    var t', m' := Delete(t, w), m - multiset{w};
    forall p ensures p in t' <==> p == [] || Below(m', p) > 0 {
      BelowRemove(m, w, p);
    }
    forall p | p in t' ensures Sound(t'[p], m', p) {
      BelowRemove(m, w, p);
    }
  }

  /** The path of an outstanding word is linked. */
  lemma OutstandingLinked(t: Trie, m: Bag, w: Word, q: Word)
    requires Counts(t, m) && w in m && q <= w
    ensures q in t && t[q].count >= 1
  {
    BelowMember(m, q, w);
  }

  lemma LinkedClosed(t: Trie, m: Bag, q: Word, p: Word)
    requires Counts(t, m) && q in t && p <= q
    ensures p in t && t[q].count <= t[p].count
  {
    BelowMonotone(m, p, q);
  }

  // ---------- the two walks of DeleteNode ----------

  /** The trie after i rounds of the counting walk of DeleteNode. */
  ghost function Uncounted(t: Trie, w: Word, i: nat): Trie {
    if i == 0 then t
    else
      var u := Uncounted(t, w, i - 1);
      u[Stop(w, i - 1) := At(u, Stop(w, i - 1)).(count := At(u, Stop(w, i - 1)).count - 1)]
  }

  lemma {:induction false} UncountedAt(t: Trie, w: Word, i: nat, q: Word)
    requires i <= |w| + 1 && forall p | p <= w :: p in t
    ensures q in Uncounted(t, w, i) <==> q in t
    ensures At(Uncounted(t, w, i), q)
            == At(t, q).(count := At(t, q).count - (if q <= w && |q| < i then 1 else 0))
  {
    if i != 0 {
      UncountedAt(t, w, i - 1, q);
      assert Stop(w, i - 1) in t;
      if q <= w {
        assert q == w[..|q|];
      }
    }
  }

  ghost function Unmarked(u: Trie, w: Word): Trie {
    u[w := At(u, w).(isEnd := false)]
  }

  /** The counts along w vanish exactly from length z on. */
  ghost predicate ZeroFrom(u: Trie, w: Word, z: nat) {
    && 1 <= z <= |w| + 1
    && forall j | 1 <= j <= |w| :: w[..j] in u && (u[w[..j]].count == 0 <==> z <= j)
  }

  /** The path nodes of w of length z and above, up to length i. */
  ghost function Gone(w: Word, z: nat, i: nat): set<Word> {
    set j | z <= j < i && j <= |w| :: w[..j]
  }

  /** The words from the first path node counted zero on: with that node they all come off the trie. */
  ghost function CutAt(t: Trie, w: Word, z: nat): set<Word> {
    set q | q in t && z <= |w| && w[..z] <= q
  }

  lemma {:induction false} FindZero(t: Trie, m: Bag, w: Word, n: nat) returns (z: nat)
    requires Counts(t, m) && w in t && 1 <= n <= |w| + 1
    requires forall j | n <= j <= |w| :: w[..j] in t && t[w[..j]].count == 1
    ensures z <= n && OnesFrom(t, w, z)
  {
    if n == 1 || (LinkedClosed(t, m, w, w[..n - 1]); t[w[..n - 1]].count != 1) {
      z := n;
      forall j | 1 <= j <= |w| ensures w[..j] in t && (t[w[..j]].count == 1 <==> z <= j) {
        LinkedClosed(t, m, w, w[..j]);
        if j < n {
          LinkedClosed(t, m, w[..n - 1], w[..j]);
        }
      }
    } else {
      z := FindZero(t, m, w, n - 1);
    }
  }

  lemma UnmarkedAt(t: Trie, w: Word, q: Word)
    requires forall p | p <= w :: p in t
    ensures var u := Unmarked(Uncounted(t, w, |w| + 1), w);
      && (q in u <==> q in t)
      && At(u, q) == At(t, q).(count := At(t, q).count - (if q <= w then 1 else 0), isEnd := q != w && At(t, q).isEnd)
  {
    UncountedAt(t, w, |w| + 1, q);
  }

  /** The two walks on a linked word: the path counts are lowered, and everything from the first node
      counted zero on comes off. */
  lemma DeleteWalks(t: Trie, m: Bag, w: Word) returns (z: nat)
    requires Counts(t, m) && w in t
    ensures forall p | p <= w :: p in t
    ensures var u := Unmarked(Uncounted(t, w, |w| + 1), w);
      && u.Keys == t.Keys && ZeroFrom(u, w, z)
      && DeleteLinked(t, w) == u - CutAt(u, w, z)
    ensures Gone(w, z, |w| + 1) == Zeros(t, w)
  {
    forall p | p <= w ensures p in t {
      LinkedClosed(t, m, w, p);
    }
    z := FindZero(t, m, w, |w| + 1);
    var u := Unmarked(Uncounted(t, w, |w| + 1), w);
    forall q ensures q in u <==> q in t {
      UnmarkedAt(t, w, q);
    }
    forall j | 1 <= j <= |w| ensures w[..j] in u && (u[w[..j]].count == 0 <==> z <= j) {
      UnmarkedAt(t, w, w[..j]);
    }
    GoneIsZeros(t, w, z);
    DeleteIsCut(t, w, z, u);
  }

  ghost predicate OnesFrom(t: Trie, w: Word, z: nat) {
    && 1 <= z <= |w| + 1
    && forall j | 1 <= j <= |w| :: w[..j] in t && (t[w[..j]].count == 1 <==> z <= j)
  }

  lemma GoneIsZero(t: Trie, w: Word, z: nat, q: Word)
    requires q in t && OnesFrom(t, w, z)
    ensures q in Gone(w, z, |w| + 1) <==> q in Zeros(t, w)
  {
    if q <= w {
      assert q == w[..|q|];
    }
  }

  lemma GoneIsZeros(t: Trie, w: Word, z: nat)
    requires OnesFrom(t, w, z)
    ensures Gone(w, z, |w| + 1) == Zeros(t, w)
  {
    forall q ensures q in Gone(w, z, |w| + 1) <==> q in Zeros(t, w) {
      if q in t {
        GoneIsZero(t, w, z, q);
      }
    }
  }

  lemma LostIsCut(t: Trie, w: Word, z: nat, q: Word)
    requires q in t && OnesFrom(t, w, z)
    ensures Lost(t, w, q) <==> q in CutAt(t, w, z)
  {
    if Lost(t, w, q) {
      var v :| v in Zeros(t, w) && v <= q;
      assert v == w[..|v|];
      assert w[..z] <= v;
      PrefixTrans(w[..z], v, q);
    }
    if q in CutAt(t, w, z) {
      assert w[..z] in Zeros(t, w);
    }
  }

  lemma DeleteIsCut(t: Trie, w: Word, z: nat, u: Trie)
    requires forall p | p <= w :: p in t
    requires OnesFrom(t, w, z) && u == Unmarked(Uncounted(t, w, |w| + 1), w)
    ensures DeleteLinked(t, w) == u - CutAt(u, w, z)
  {
    forall q ensures q in DeleteLinked(t, w) <==> q in u - CutAt(u, w, z) {
      UnmarkedAt(t, w, q);
      if q in t {
        LostIsCut(t, w, z, q);
      }
    }
    forall q | q in DeleteLinked(t, w) ensures DeleteLinked(t, w)[q] == u[q] {
      UnmarkedAt(t, w, q);
    }
  }

  /** When the word is outstanding, whatever comes off lies on its path. */
  lemma LostIsZero(t: Trie, m: Bag, w: Word, q: Word)
    requires Counts(t, m) && w in m && q in t && Lost(t, w, q)
    ensures q in Zeros(t, w)
  {
    var v :| v in Zeros(t, w) && v <= q;
    BelowWitness(m, q);
    var x :| x in m && q <= x;
    PrefixTrans(v, q, x);
    OnlyOne(t, m, v, x, w);
    LinkedClosed(t, m, q, v);
  }

  /** Below a node counted once there is one outstanding word only. */
  lemma OnlyOne(t: Trie, m: Bag, v: Word, x: Word, y: Word)
    requires Counts(t, m) && v in t && t[v].count == 1
    requires x in m && v <= x && y in m && v <= y
    ensures x == y
  {
    BelowRemove(m, x, v);
    if x != y {
      BelowMember(m - multiset{x}, v, y);
    }
  }

  /** DeleteNode of an outstanding word takes the path nodes counted zero off, and no others. */
  lemma DeleteOutstanding(t: Trie, m: Bag, w: Word)
    requires Counts(t, m) && w in m
    ensures w in t && DeleteLinked(t, w) == Delete(t, w) && t.Keys - Delete(t, w).Keys == Zeros(t, w)
  {
    OutstandingLinked(t, m, w, w);
    forall q | q in t ensures Lost(t, w, q) <==> q in Zeros(t, w) {
      if Lost(t, w, q) {
        LostIsZero(t, m, w, q);
      }
    }
  }

  ghost predicate Leaf(t: Trie, p: Word) {
    forall c: Letter :: p + [c] !in t
  }

  /** A linked node without linked extensions is outstanding itself (unless it is an empty root). */
  lemma LeafOutstanding(t: Trie, m: Bag, p: Word)
    requires Counts(t, m) && p in t && t[p].count > 0 && Leaf(t, p)
    ensures p in m
  {
    BelowWitness(m, p);
    var u :| u in m && p <= u;
    if p != u {
      NextLetter(p, u);
      OutstandingLinked(t, m, u, p + [u[|p|]]);
    }
  }

  // ---------- the count of a node from its own copies and its children ----------

  ghost function KidSum(t: Trie, p: Word, k: nat): int
    requires k <= 127
  {
    if k == 0 then 0 else KidSum(t, p, k - 1) + At(t, p + [k as char]).count
  }

  ghost function KidBelow(m: Bag, p: Word, k: nat): nat
    requires k <= 127
  {
    if k == 0 then 0 else KidBelow(m, p, k - 1) + Below(m, p + [k as char])
  }

  lemma {:induction false} KidBelowRemove(m: Bag, p: Word, k: nat, w: Word)
    requires k <= 127 && w in m
    ensures KidBelow(m, p, k) == KidBelow(m - multiset{w}, p, k) + (if p < w && w[|p|] as int <= k then 1 else 0)
  {
    if k != 0 {
      KidBelowRemove(m, p, k - 1, w);
      BelowRemove(m, w, p + [k as char]);
      SnocParts(p, k as char);
      if p < w {
        NextLetter(p, w);
      }
    }
  }

  lemma {:induction false} BelowSplit(m: Bag, p: Word)
    ensures Below(m, p) == m[p] + KidBelow(m, p, 127)
    decreases |m|
  {
    if m == multiset{} {
      EmptyKids(p, 127);
    } else {
      var w :| w in m;
      BelowRemove(m, w, p);
      KidBelowRemove(m, p, 127, w);
      BelowSplit(m - multiset{w}, p);
      if p <= w && p != w {
        assert w[|p|] as int <= 127;
      }
    }
  }

  lemma {:induction false} EmptyKids(p: Word, k: nat)
    requires k <= 127
    ensures KidBelow(multiset{}, p, k) == 0
  {
    if k != 0 {
      EmptyKids(p, k - 1);
    }
  }

  lemma {:induction false} KidSumIsBelow(t: Trie, m: Bag, p: Word, k: nat)
    requires Counts(t, m) && k <= 127
    ensures KidSum(t, p, k) == KidBelow(m, p, k)
  {
    if k != 0 {
      KidSumIsBelow(t, m, p, k - 1);
    }
  }

  /** The count of a node is the number of outstanding copies of its word plus its children's counts. */
  lemma CountIsOwnPlusChildren(t: Trie, m: Bag, p: Word)
    requires Counts(t, m) && p in t
    ensures t[p].count == m[p] + KidSum(t, p, 127)
  {
    BelowSplit(m, p);
    KidSumIsBelow(t, m, p, 127);
  }

  // ---------- inserting and deleting the same word ----------

  /** What an insertion of w followed by a deletion of w leaves behind. */
  lemma InsertThenDelete(t: Trie, m: Bag, w: Word, a: int, b: int, c: int)
    requires Counts(t, m)
    ensures Delete(Insert(t, w, a, b, c), w)
            == if w in t then t[w := t[w].(isEnd := false, ports := AddPorts(t[w].ports, a, b, c))] else t
  {
    var u := Insert(t, w, a, b, c);
    var r := if w in t then t[w := t[w].(isEnd := false, ports := AddPorts(t[w].ports, a, b, c))] else t;
    forall q ensures q in Delete(u, w) <==> q in r {
      InPrefixes(q, w);
    }
    forall q | q in r ensures Delete(u, w)[q] == r[q] {
      InPrefixes(q, w);
    }
  }

  /** The pair restores the trie exactly when w had no node, or its node was unmarked and already
      knew the three ports. */
  lemma InsertThenDeleteRestores(t: Trie, m: Bag, w: Word, a: int, b: int, c: int)
    requires Counts(t, m)
    ensures Delete(Insert(t, w, a, b, c), w) == t
            <==> (w !in t || (!t[w].isEnd && a in t[w].ports && b in t[w].ports && c in t[w].ports))
  {
    InsertThenDelete(t, m, w, a, b, c);
    if w in t {
      var i := t[w].(isEnd := false, ports := AddPorts(t[w].ports, a, b, c));
      assert t[w := i] == t <==> t[w] == i;
      AddPortsFacts(t[w].ports, a, b, c);
    }
  }

  // ---------- deleting a word that is linked but not outstanding ----------

  /** If a path node is counted once, the delete takes the one outstanding word below that node instead of
      the word it was given. */
  lemma StrayDeleteTakes(t: Trie, m: Bag, w: Word) returns (x: Word)
    requires Counts(t, m) && w in t && w !in m && Zeros(t, w) != {}
    ensures x in m && w <= x && x != w && DeleteLinked(t, w) == Delete(t, x)
    ensures Counts(DeleteLinked(t, w), m - multiset{x})
  {
    var v :| v in Zeros(t, w);
    assert w != [];
    BelowWitness(m, w);
    x :| x in m && w <= x;
    StrayIsDelete(t, m, w, v, x);
    DeleteCounts(t, m, x);
  }

  lemma StrayIsDelete(t: Trie, m: Bag, w: Word, v: Word, x: Word)
    requires Counts(t, m) && v in Zeros(t, w) && w in t && x in m && w <= x
    ensures DeleteLinked(t, w) == Delete(t, x)
  {
    forall q | q in t ensures Lost(t, w, q) <==> q in Zeros(t, x) {
      StrayLost(t, m, w, v, x, q);
    }
    forall q | q in t && q !in Zeros(t, x) ensures (q <= w <==> q <= x) && q != w && q != x {
      StrayKept(t, m, w, v, x, q);
    }
    assert DeleteLinked(t, w).Keys == Delete(t, x).Keys;
  }

  lemma StrayLost(t: Trie, m: Bag, w: Word, v: Word, x: Word, q: Word)
    requires Counts(t, m) && v in Zeros(t, w) && x in m && w <= x && q in t
    ensures Lost(t, w, q) <==> q in Zeros(t, x)
  {
    if Lost(t, w, q) {
      var a :| a in Zeros(t, w) && a <= q;
      BelowWitness(m, q);
      var y :| y in m && q <= y;
      PrefixTrans(a, q, y);
      PrefixTrans(a, w, x);
      OnlyOne(t, m, a, x, y);
      LinkedClosed(t, m, q, a);
    }
    if q in Zeros(t, x) {
      PrefixTrans(v, w, x);
      PrefixesComparable(v, q, x);
      if v <= q {
        assert Lost(t, w, q);
      } else {
        PrefixTrans(q, v, w);
        assert q in Zeros(t, w);
      }
    }
  }

  lemma StrayKept(t: Trie, m: Bag, w: Word, v: Word, x: Word, q: Word)
    requires Counts(t, m) && v in Zeros(t, w) && w in t && x in m && w <= x && q in t && q !in Zeros(t, x)
    ensures (q <= w <==> q <= x) && q != w && q != x
  {
    PrefixTrans(v, w, x);
    OutstandingLinked(t, m, x, x);
    LinkedClosed(t, m, w, v);
    LinkedClosed(t, m, x, v);
    if q <= w {
      PrefixTrans(q, w, x);
    }
    if q <= x {
      PrefixesComparable(q, v, x);
      if v <= q {
        LinkedClosed(t, m, q, v);
      } else {
        PrefixTrans(q, v, w);
      }
    }
  }

  /** Otherwise no words at all fit the counts it leaves: the node of w is counted less than its children. */
  lemma StrayDeleteBreaks(t: Trie, m: Bag, w: Word, m': Bag)
    requires Counts(t, m) && w in t && w !in m && Zeros(t, w) == {}
    ensures !Counts(DeleteLinked(t, w), m')
  {
    var u := DeleteLinked(t, w);
    forall q | q in t ensures q in u {}
    if Counts(u, m') {
      CountIsOwnPlusChildren(t, m, w);
      CountIsOwnPlusChildren(u, m', w);
      SameKids(t, u, w, 127);
    }
  }

  lemma {:induction false} SameKids(t: Trie, u: Trie, p: Word, k: nat)
    requires k <= 127 && forall c: Letter :: At(u, p + [c]) == At(t, p + [c])
    ensures KidSum(u, p, k) == KidSum(t, p, k)
  {
    if k > 0 { SameKids(t, u, p, k - 1); }
  }

  /** So the counts stay right for some outstanding words exactly when a path node was counted once. */
  lemma StrayDeleteExactly(t: Trie, m: Bag, w: Word)
    requires Counts(t, m) && w in t && w !in m
    ensures (exists m' :: Counts(DeleteLinked(t, w), m')) <==> Zeros(t, w) != {}
  {
    if Zeros(t, w) != {} {
      var x := StrayDeleteTakes(t, m, w);
    } else {
      forall m' ensures !Counts(DeleteLinked(t, w), m') {
        StrayDeleteBreaks(t, m, w, m');
      }
    }
  }
}
