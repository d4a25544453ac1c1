/** Path names: C strings over the bytes 1..127, their prefixes and their dictionary order. */
module Words {

  type Letter = c: char | 0 < c as int < 128 witness 'a'
  type Word = seq<Letter>

  const SLASH: Letter := '/'

  /** Every prefix of w, the empty word and w itself included. */
  ghost function Prefixes(w: Word): set<Word> {
    set i | 0 <= i <= |w| :: w[..i]
  }

  lemma InPrefixes(q: Word, w: Word)
    ensures q in Prefixes(w) <==> q <= w
  {
    if q <= w {
      assert q == w[..|q|];
    }
  }

  lemma SnocParts(p: Word, c: Letter)
    ensures (p + [c])[..|p|] == p && (p + [c])[|p|] == c
  {}

  /** A proper extension of p continues p with some letter. */
  lemma NextLetter(p: Word, q: Word)
    requires p < q
    ensures p + [q[|p|]] <= q
  {
    assert q[..|p| + 1] == p + [q[|p|]];
  }

  lemma PrefixTrans(p: Word, q: Word, r: Word)
    requires p <= q <= r
    ensures p <= r
  {}

  /** Two prefixes of one word are comparable. */
  lemma PrefixesComparable(p: Word, q: Word, w: Word)
    requires p <= w && q <= w
    ensures p <= q || q <= p
  {
    if |p| <= |q| {
      assert p == w[..|p|] == q[..|p|];
    } else {
      assert q == w[..|q|] == p[..|q|];
    }
  }

  /** Dictionary order, a word before its extensions. */
  predicate Less(a: Word, b: Word) {
    b != [] && (a == [] || a[0] < b[0] || (a[0] == b[0] && Less(a[1..], b[1..])))
  }

  lemma {:induction false} LessAfterPrefix(p: Word, a: Word, b: Word)
    requires a != [] && b != [] && a[0] < b[0]
    ensures Less(p + a, p + b)
  {
    if p == [] {
      assert p + a == a && p + b == b;
    } else {
      LessAfterPrefix(p[1..], a, b);
      assert (p + a)[1..] == p[1..] + a && (p + b)[1..] == p[1..] + b;
    }
  }

  lemma {:induction false} PrefixIsLess(p: Word, q: Word)
    requires p < q
    ensures Less(p, q)
  {
    if p != [] {
      PrefixIsLess(p[1..], q[1..]);
    }
  }

  lemma {:induction false} LessTrans(a: Word, b: Word, c: Word)
    requires Less(a, b) && Less(b, c)
    ensures Less(a, c)
  {
    if a != [] && a[0] == b[0] == c[0] {
      LessTrans(a[1..], b[1..], c[1..]);
    }
  }

  lemma {:induction false} LessIrreflexive(a: Word)
    ensures !Less(a, a)
  {
    if a != [] {
      LessIrreflexive(a[1..]);
    }
  }

  /** One word stands before another when it is a proper prefix of it, or has the smaller letter at the first
      place where they differ. */
  lemma {:induction false} LessIs(a: Word, b: Word)
    ensures Less(a, b) <==> exists k: nat :: Smaller(a, b, k)
    decreases |a|
  {
    if b != [] && (a == [] || a[0] != b[0]) {
      assert Smaller(a, b, 0) <==> Less(a, b);
    } else if b != [] {
      LessIs(a[1..], b[1..]);
      if k: nat :| Smaller(a[1..], b[1..], k) {
        assert a[..k + 1] == [a[0]] + a[1..][..k] && b[..k + 1] == [b[0]] + b[1..][..k];
        assert Smaller(a, b, k + 1);
      }
    }
    if k: nat :| Smaller(a, b, k) && k > 0 {
      assert a[0] == a[..k][0] == b[..k][0] == b[0];
      assert a[1..][..k - 1] == a[..k][1..] && b[1..][..k - 1] == b[..k][1..];
      assert Smaller(a[1..], b[1..], k - 1);
    }
  }

  ghost predicate Smaller(a: Word, b: Word, k: nat) {
    k <= |a| && k < |b| && a[..k] == b[..k] && (k == |a| || (a[k] as int) < b[k] as int)
  }
}
