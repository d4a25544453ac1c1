/** Walks over the trie as a value: the next deletable word (nextentry, rec) and the enumeration of the
    marked words (printTriesFile, Tries_Ports_fn). */
module TrieWalk {
  import opened Words
  import opened TrieModel

  /** The linked proper extensions of p, the measure of every recursive walk. */
  ghost function Extensions(t: Trie, p: Word): set<Word> {
    set q | q in t && p < q
  }

  lemma FewerExtensions(t: Trie, p: Word, c: Letter)
    requires p + [c] in t
    ensures Extensions(t, p + [c]) < Extensions(t, p)
  {
    assert p + [c] in Extensions(t, p) && p + [c] !in Extensions(t, p + [c]);
  }

  ghost predicate Rooted(t: Trie) {
    forall p, q | q in t && p <= q :: p in t
  }

  lemma CountsRooted(t: Trie, m: Bag)
    requires Counts(t, m)
    ensures Rooted(t)
  {
    forall p, q | q in t && p <= q ensures p in t {
      LinkedClosed(t, m, q, p);
    }
  }

  // ---------- nextentry ----------

  ghost function Kid(p: Word, j: nat): Word
    requires 1 <= j < 128
  {
    p + [j as char]
  }

  /** The least letter i or above that leads from p to a linked child, 128 if there is none. */
  ghost function FirstKid(t: Trie, p: Word, i: nat): (k: nat)
    requires 1 <= i <= 128
    ensures i <= k <= 128
    ensures k < 128 ==> p + [k as char] in t
    ensures forall j | i <= j < k :: Kid(p, j) !in t
    decreases 128 - i
  {
    if i == 128 then 128 else if p + [i as char] in t then i else FirstKid(t, p, i + 1)
  }

  /** rec: follow least children down to the first marked word or to a leaf. */
  ghost function Rec(t: Trie, p: Word): Word
    decreases Extensions(t, p)
  {
    var k := FirstKid(t, p, 1);
    if k == 128 then p
    else
      var q := p + [k as char];
      FewerExtensions(t, p, k as char);
      if t[q].isEnd then q else Rec(t, q)
  }

  ghost function NextEntry(t: Trie, p: Word): Word {
    if p in t then Rec(t, p) else []
  }

  ghost predicate Candidate(t: Trie, q: Word) {
    q in t && (t[q].isEnd || Leaf(t, q))
  }

  lemma NoKidIsLeaf(t: Trie, p: Word)
    ensures FirstKid(t, p, 1) == 128 <==> Leaf(t, p)
  {
    var k := FirstKid(t, p, 1);
    if k == 128 {
      forall c: Letter ensures p + [c] !in t {
        var j := c as int;
        assert Kid(p, j) !in t;
      }
    } else {
      var c: Letter := k as char;
      assert p + [c] in t;
    }
  }

  /** For a linked path the walk ends at the path itself exactly when that is a leaf; otherwise at
      the least marked word or leaf strictly below it. */
  lemma {:induction false} RecIsLeast(t: Trie, p: Word)
    requires Rooted(t) && p in t
    ensures p <= Rec(t, p) && Rec(t, p) in t
    ensures Rec(t, p) == p <==> Leaf(t, p)
    ensures Candidate(t, Rec(t, p))
    ensures forall q | Candidate(t, q) && p < q :: q == Rec(t, p) || Less(Rec(t, p), q)
    decreases Extensions(t, p)
  {
    NoKidIsLeaf(t, p);
    var k := FirstKid(t, p, 1);
    if k == 128 {
      forall q | Candidate(t, q) && p < q ensures false {
        NextLetter(p, q);
      }
    } else {
      var z := p + [k as char];
      FewerExtensions(t, p, k as char);
      var r := Rec(t, p);
      if !t[z].isEnd {
        RecIsLeast(t, z);
      }
      assert z <= r;
      forall q | Candidate(t, q) && p < q ensures q == r || Less(r, q) {
        LeastBelow(t, p, z, r, q);
      }
    }
  }

  lemma LeastBelow(t: Trie, p: Word, z: Word, r: Word, q: Word)
    requires Rooted(t) && FirstKid(t, p, 1) < 128 && z == p + [FirstKid(t, p, 1) as char] <= r
    requires Candidate(t, q) && p < q
    requires t[z].isEnd ==> r == z
    requires !t[z].isEnd ==> (Leaf(t, z) ==> r == z) && forall x | Candidate(t, x) && z < x :: x == r || Less(r, x)
    ensures q == r || Less(r, q)
  {
    NextLetter(p, q);
    var k, j := FirstKid(t, p, 1), q[|p|] as int;
    assert Kid(p, j) in t;
    assert k <= j;
    if k < j {
      assert r == p + r[|p|..] && q == p + q[|p|..];
      assert r[|p|] == z[|p|];
      LessAfterPrefix(p, r[|p|..], q[|p|..]);
    } else if t[z].isEnd && q != r {
      PrefixIsLess(r, q);
    } else if !t[z].isEnd && q == z {
      assert Leaf(t, z);
    } else if !t[z].isEnd {
      assert z < q;
    }
  }

  /** So nextentry gives nothing for a missing path, a leaf for itself, and otherwise the least marked word or leaf
      strictly below the path. */
  lemma NextEntryIs(t: Trie, p: Word)
    requires Rooted(t)
    ensures p !in t ==> NextEntry(t, p) == []
    ensures p in t && Leaf(t, p) ==> NextEntry(t, p) == p
    ensures p in t && !Leaf(t, p) ==>
      var w := NextEntry(t, p);
      && Candidate(t, w) && p < w
      && forall q | Candidate(t, q) && p < q :: q == w || Less(w, q)
  {
    if p in t {
      RecIsLeast(t, p);
    }
  }

  /** Under the counting invariant a path with something outstanding below it yields a word that
      DeleteNode may be called with. */
  lemma NextEntryOutstanding(t: Trie, m: Bag, p: Word)
    requires Counts(t, m) && Below(m, p) > 0
    ensures p in t && p <= NextEntry(t, p) && NextEntry(t, p) in m
  {
    CountsRooted(t, m);
    RecIsLeast(t, p);
    var r := Rec(t, p);
    if !t[r].isEnd {
      if r == [] {
        assert p == [];
      }
      LeafOutstanding(t, m, r);
    }
  }

  // ---------- enumeration ----------

  /** The marked words strictly below p whose next letter is i or above, in the order of the walk. */
  ghost function Listing(t: Trie, p: Word, i: nat): seq<Word>
    requires 1 <= i <= 128
    decreases Extensions(t, p), 128 - i
  {
    if i == 128 then []
    else
      var q := p + [i as char];
      if q in t then
        FewerExtensions(t, p, i as char);
        (if t[q].isEnd then [q] else []) + Listing(t, q, 1) + Listing(t, p, i + 1)
      else Listing(t, p, i + 1)
  }

  /** A marked node and everything listed below it, in the order of the walk. */
  ghost function Subtree(t: Trie, p: Word): seq<Word>
    requires p in t
  {
    (if t[p].isEnd then [p] else []) + Listing(t, p, 1)
  }

  ghost predicate Increasing(s: seq<Word>) {
    forall a, b | 0 <= a < b < |s| :: Less(s[a], s[b])
  }

  ghost predicate Listed(t: Trie, p: Word, i: nat, w: Word) {
    w in t && t[w].isEnd && p < w && w[|p|] as int >= i
  }

  /** Exactly the marked words strictly below p, each once, in dictionary order. */
  lemma {:induction false} ListingFacts(t: Trie, p: Word, i: nat)
    requires Rooted(t) && 1 <= i <= 128
    ensures forall w :: w in Listing(t, p, i) <==> Listed(t, p, i, w)
    ensures Increasing(Listing(t, p, i))
    decreases Extensions(t, p), 128 - i
  {
    if i < 128 {
      ListingFacts(t, p, i + 1);
      var q := p + [i as char];
      if q in t {
        FewerExtensions(t, p, i as char);
        ListingFacts(t, q, 1);
        var first := if t[q].isEnd then [q] else [];
        var inner, rest := Listing(t, q, 1), Listing(t, p, i + 1);
        forall w ensures w in first + inner + rest <==> Listed(t, p, i, w) {
          ListedStep(t, p, i, w);
        }
        forall a, b | a in first && b in inner + rest ensures Less(a, b) {
          if b in inner { PrefixIsLess(q, b); } else { ByLetter(p, a, b); }
        }
        forall a, b | a in inner && b in rest ensures Less(a, b) {
          ByLetter(p, a, b);
        }
        IncreasingConcat(inner, rest);
        IncreasingConcat(first, inner + rest);
        assert first + (inner + rest) == first + inner + rest;
      } else {
        forall w | Listed(t, p, i, w) ensures w[|p|] as int != i {
          NextLetter(p, w);
        }
      }
    }
  }

  lemma ListedStep(t: Trie, p: Word, i: nat, w: Word)
    requires Rooted(t) && 1 <= i < 128 && p + [i as char] in t
    ensures Listed(t, p, i, w) <==>
            (w == p + [i as char] && t[w].isEnd) || Listed(t, p + [i as char], 1, w) || Listed(t, p, i + 1, w)
  {
    var q := p + [i as char];
    if p < w {
      NextLetter(p, w);
    }
    if Listed(t, q, 1, w) {
      assert w[|p|] == q[|p|];
    }
  }

  lemma ByLetter(p: Word, a: Word, b: Word)
    requires p < a && p < b && a[|p|] < b[|p|]
    ensures Less(a, b)
  {
    assert a == p + a[|p|..] && b == p + b[|p|..];
    LessAfterPrefix(p, a[|p|..], b[|p|..]);
  }

  lemma IncreasingConcat(a: seq<Word>, b: seq<Word>)
    requires Increasing(a) && Increasing(b)
    requires forall x, y | x in a && y in b :: Less(x, y)
    ensures Increasing(a + b)
  {}

  lemma IncreasingNoDup(s: seq<Word>)
    requires Increasing(s)
    ensures forall a, b | 0 <= a < b < |s| :: s[a] != s[b]
  {
    forall a, b | 0 <= a < b < |s| ensures s[a] != s[b] {
      LessIrreflexive(s[a]);
    }
  }
}
