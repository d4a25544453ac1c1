/** Exactly which paths a lookup finds after each cache operation, and the hash slots in closed form. */
module LruHits {
  import opened Words
  import opened Wrappers
  import opened LruModel

  // ---------- the hash ----------

  function Power33(n: nat): nat {
    if n == 0 then 1 else 33 * Power33(n - 1)
  }

  /** The letters of s as the digits of a number to the base 33. */
  function Base33(s: Word): nat {
    if s == [] then 0 else Base33(s[..|s| - 1]) * 33 + s[|s| - 1] as int
  }

  const WIDTH: nat := 0x1_0000_0000_0000_0000

  lemma {:induction false} Djb2Snoc(h: nat, s: Word, c: Letter)
    ensures Djb2(h, s + [c]) == (Djb2(h, s) * 33 + c as int) % WIDTH
    decreases |s|
  {
    if s == [] {
      assert ([] + [c])[1..] == [] && ([] + [c])[0] == c;
    } else {
      assert (s + [c])[1..] == s[1..] + [c];
      Djb2Snoc((h * 33 + s[0] as int) % WIDTH, s[1..], c);
    }
  }

  lemma ModStep(a: nat, b: nat, c: nat)
    requires a == b % WIDTH
    ensures (a * 33 + c) % WIDTH == (b * 33 + c) % WIDTH
  {
    var q := b / WIDTH;
    assert b * 33 + c == (a * 33 + c) + (33 * q) * WIDTH;
    ModAdd(a * 33 + c, 33 * q);
  }

  lemma {:induction false} ModAdd(x: nat, k: nat)
    ensures (x + k * WIDTH) % WIDTH == x % WIDTH
  {
    if k > 0 {
      ModAdd(x, k - 1);
      assert x + k * WIDTH == (x + (k - 1) * WIDTH) + WIDTH;
    }
  }

  /** The hash of a path is its number to the base 33, behind the digit 5381, cut to 64 bits. */
  lemma {:induction false} Djb2Is(s: Word)
    ensures Djb2(5381, s) == (5381 * Power33(|s|) + Base33(s)) % 0x1_0000_0000_0000_0000
  {
    if s != [] {
      var n := |s| - 1;
      Djb2Is(s[..n]);
      assert s == s[..n] + [s[n]];
      Djb2Snoc(5381, s[..n], s[n]);
      var b := 5381 * Power33(n) + Base33(s[..n]);
      ModStep(Djb2(5381, s[..n]), b, s[n] as int);
      assert b * 33 + s[n] as int == 5381 * Power33(n + 1) + Base33(s);
    }
  }

  /** Two paths share a slot exactly when their hashes agree modulo 31. */
  lemma SlotIs(s: Word)
    ensures Slot(s) == (5381 * Power33(|s|) + Base33(s)) % 0x1_0000_0000_0000_0000 % 31
  {
    Djb2Is(s);
  }

  // ---------- what a lookup finds ----------

  /** Of a path's entries at most one is visible, and the lookup finds it. */
  lemma FindsVisible<V>(c: Cache<V>, now: nat, j: nat)
    requires Orderly(c, now) && j < |c| && Visible(c, j)
    ensures GetResult(c, c[j].path) == Some(c[j].lh)
  {
    var i := Find(c, c[j].path);
    if i != j {
      OnlyVisible(c, now, i, j);
    }
  }

  /** When d shows for q exactly what c shows for it, both give the same answer. */
  lemma SameAnswer<V>(c: Cache<V>, d: Cache<V>, now: nat, later: nat, q: Word)
    requires Orderly(c, now) && Orderly(d, later)
    requires forall k | 0 <= k < |d| && d[k].path == q && Visible(d, k) ::
      exists o :: 0 <= o < |c| && c[o].path == q && Visible(c, o) && c[o].lh == d[k].lh
    requires forall o | 0 <= o < |c| && c[o].path == q && Visible(c, o) ::
      exists k :: 0 <= k < |d| && d[k].path == q && Visible(d, k)
    ensures GetResult(d, q) == GetResult(c, q)
  {
    var i, k := Find(c, q), Find(d, q);
    if k < |d| {
      var o :| 0 <= o < |c| && c[o].path == q && Visible(c, o) && c[o].lh == d[k].lh;
      FindsVisible(c, now, o);
    }
  }

  lemma NoAnswer<V>(d: Cache<V>, q: Word)
    requires forall k | 0 <= k < |d| && d[k].path == q :: !Visible(d, k)
    ensures GetResult(d, q) == None
  {}

  // ---------- a hit ----------

  lemma TouchHides<V>(c: Cache<V>, i: nat, lh: V, now: nat, k: nat)
    requires Orderly(c, now) && i < |c| && Visible(c, i) && k < |c| - 1
    ensures |Touch(c, i, lh, now)| == |c| && Touch(c, i, lh, now)[k] == c[Origin(i, k)]
    ensures Visible(Touch(c, i, lh, now), k) <==>
      Visible(c, Origin(i, k)) && !(c[i].anchor && Slot(c[Origin(i, k)].path) == Slot(c[i].path))
  {
    TouchVisible(c, i, lh, now, k);
    if Visible(Touch(c, i, lh, now), k) {
      HiddenByMove(c, i, lh, now, k);
    } else if Visible(c, Origin(i, k)) && !(c[i].anchor && Slot(c[Origin(i, k)].path) == Slot(c[i].path)) {
      NotHiddenByMove(c, i, lh, now, k);
    }
  }

  lemma HiddenByMove<V>(c: Cache<V>, i: nat, lh: V, now: nat, k: nat)
    requires Orderly(c, now) && i < |c| && k < |c| - 1
    requires |Touch(c, i, lh, now)| == |c| && Visible(Touch(c, i, lh, now), k)
    ensures !(c[i].anchor && Slot(c[Origin(i, k)].path) == Slot(c[i].path))
  {
    var d := Touch(c, i, lh, now);
    var a :| 0 <= a <= k && d[a].anchor && Slot(d[a].path) == Slot(d[k].path);
    TouchVisible(c, i, lh, now, a);
    TouchVisible(c, i, lh, now, k);
  }

  lemma NotHiddenByMove<V>(c: Cache<V>, i: nat, lh: V, now: nat, k: nat)
    requires i < |c| && k < |c| - 1 && Visible(c, Origin(i, k))
    requires !(c[i].anchor && Slot(c[Origin(i, k)].path) == Slot(c[i].path))
    ensures |Touch(c, i, lh, now)| == |c| && Visible(Touch(c, i, lh, now), k)
  {
    var o := Origin(i, k);
    var a :| 0 <= a <= o && c[a].anchor && Slot(c[a].path) == Slot(c[o].path);
    var b := if a < i then a else a - 1;
    TouchVisible(c, i, lh, now, b);
    TouchVisible(c, i, lh, now, k);
    assert Origin(i, b) == a;
  }

  lemma TouchShowsLast<V>(c: Cache<V>, i: nat, lh: V, now: nat)
    requires i < |c| && Visible(c, i)
    ensures var d := Touch(c, i, lh, now);
      |d| == |c| && d[|c| - 1] == c[i].(lh := lh, stamp := now) && Visible(d, |c| - 1)
  {
    var d := Touch(c, i, lh, now);
    var a :| 0 <= a <= i && c[a].anchor && Slot(c[a].path) == Slot(c[i].path);
    assert d[if a < i then a else |c| - 1].anchor;
  }

  /** Behind a hit the path is found with the given list. Every other path is found as before, unless the slot
      pointed at the entry that was hit: moved to the end, it hides all others of its slot. */
  lemma TouchExactly<V>(c: Cache<V>, now: nat, i: nat, lh: V, q: Word)
    requires Orderly(c, now) && i < |c| && Visible(c, i)
    ensures GetResult(Touch(c, i, lh, now), q) ==
      if q == c[i].path then Some(lh)
      else if c[i].anchor && Slot(q) == Slot(c[i].path) then None
      else GetResult(c, q)
  {
    var d := Touch(c, i, lh, now);
    TouchKeeps(c, i, lh, now);
    TouchShowsLast(c, i, lh, now);
    if q == c[i].path {
      FindsVisible(d, now + 1, |c| - 1);
    } else if c[i].anchor && Slot(q) == Slot(c[i].path) {
      TouchedNone(c, now, i, lh, q);
    } else {
      TouchedSame(c, now, i, lh, q);
    }
  }

  lemma TouchedNone<V>(c: Cache<V>, now: nat, i: nat, lh: V, q: Word)
    requires Orderly(c, now) && i < |c| && Visible(c, i)
    requires q != c[i].path && c[i].anchor && Slot(q) == Slot(c[i].path)
    ensures GetResult(Touch(c, i, lh, now), q) == None
  {
    var d := Touch(c, i, lh, now);
    TouchShowsLast(c, i, lh, now);
    forall k | 0 <= k < |d| && d[k].path == q ensures !Visible(d, k) {
      TouchHides(c, i, lh, now, k);
    }
    NoAnswer(d, q);
  }

  lemma TouchedSame<V>(c: Cache<V>, now: nat, i: nat, lh: V, q: Word)
    requires Orderly(c, now) && i < |c| && Visible(c, i)
    requires q != c[i].path && !(c[i].anchor && Slot(q) == Slot(c[i].path))
    ensures GetResult(Touch(c, i, lh, now), q) == GetResult(c, q)
  {
    var d := Touch(c, i, lh, now);
    TouchKeeps(c, i, lh, now);
    TouchShowsLast(c, i, lh, now);
    forall k | 0 <= k < |d| && d[k].path == q && Visible(d, k)
      ensures exists o :: 0 <= o < |c| && c[o].path == q && Visible(c, o) && c[o].lh == d[k].lh
    {
      TouchHides(c, i, lh, now, k);
      assert c[Origin(i, k)].path == q;
    }
    forall o | 0 <= o < |c| && c[o].path == q && Visible(c, o)
      ensures exists k :: 0 <= k < |d| && d[k].path == q && Visible(d, k)
    {
      var k := if o < i then o else o - 1;
      assert Origin(i, k) == o;
      TouchHides(c, i, lh, now, k);
    }
    SameAnswer(c, d, now, now + 1, q);
  }

  lemma GetExactly<V>(c: Cache<V>, now: nat, p: Word, q: Word)
    requires Orderly(c, now)
    ensures var i := Find(c, p);
      GetResult(Get(c, p, now), q) ==
      if i < |c| && q != p && c[i].anchor && Slot(q) == Slot(p) then None else GetResult(c, q)
  {
    var i := Find(c, p);
    if i < |c| {
      TouchExactly(c, now, i, c[i].lh, q);
    }
  }

  // ---------- a put ----------

  lemma SomeFresh<V>(c: Cache<V>, now: nat) returns (latest: map<Word, V>)
    requires Orderly(c, now)
    ensures Fresh(c, latest)
  {
    var paths := set i | 0 <= i < |c| :: c[i].path;
    latest := map p | p in paths && GetResult(c, p).Some? :: GetResult(c, p).value;
    forall i | 0 <= i < |c| && Visible(c, i) ensures c[i].path in latest && c[i].lh == latest[c[i].path] {
      FindsVisible(c, now, i);
    }
  }

  lemma AppendExactly<V>(c: Cache<V>, now: nat, p: Word, lh: V, q: Word)
    requires Orderly(c, now) && Find(c, p) == |c|
    ensures Orderly(Append(c, p, lh, now), now + 1)
    ensures GetResult(Append(c, p, lh, now), q) == if q == p then Some(lh) else GetResult(c, q)
  {
    var d := Append(c, p, lh, now);
    var latest := SomeFresh(c, now);
    AppendKeeps(c, p, lh, now, latest);
    forall k | 0 <= k < |c| ensures d[k] == c[k] && (Visible(d, k) <==> Visible(c, k)) {
      AppendVisible(c, p, lh, now, k);
    }
    if q == p {
      AppendShowsLast(c, p, lh, now);
      FindsVisible(d, now + 1, |c|);
    } else {
      SameAnswer(c, d, now, now + 1, q);
    }
  }

  lemma AppendShowsLast<V>(c: Cache<V>, p: Word, lh: V, now: nat)
    ensures Visible(Append(c, p, lh, now), |c|)
  {
    var d := Append(c, p, lh, now);
    var a := AnchorFrom(c, Slot(p), 0);
    assert d[a].anchor && Slot(d[a].path) == Slot(p);
  }

  lemma EvictHides<V>(c: Cache<V>, k: nat)
    requires c != [] && k < |c| - 1
    ensures Evict(c)[k].path == c[k + 1].path && Evict(c)[k].lh == c[k + 1].lh
    ensures Visible(Evict(c), k) <==> Visible(c, k + 1) && Slot(c[k + 1].path) != Slot(c[0].path)
  {
    var d := Evict(c);
    EvictVisible(c, k);
    if Visible(c, k + 1) && Slot(c[k + 1].path) != Slot(c[0].path) {
      var a :| 0 <= a <= k + 1 && c[a].anchor && Slot(c[a].path) == Slot(c[k + 1].path);
      assert d[a - 1].anchor && Slot(d[a - 1].path) == Slot(d[k].path);
    }
  }

  /** An eviction hides all paths of the evicted entry's slot, and no other. */
  lemma EvictExactly<V>(c: Cache<V>, now: nat, q: Word)
    requires Orderly(c, now) && c != []
    ensures GetResult(Evict(c), q) == if Slot(q) == Slot(c[0].path) then None else GetResult(c, q)
  {
    var d := Evict(c);
    var latest := SomeFresh(c, now);
    EvictKeeps(c, now, latest);
    forall k | 0 <= k < |d|
      ensures d[k].path == c[k + 1].path && d[k].lh == c[k + 1].lh
      ensures Visible(d, k) <==> Visible(c, k + 1) && Slot(c[k + 1].path) != Slot(c[0].path)
    {
      EvictHides(c, k);
    }
    if Slot(q) == Slot(c[0].path) {
      NoAnswer(d, q);
    } else {
      forall o | 0 <= o < |c| && c[o].path == q && Visible(c, o)
        ensures exists k :: 0 <= k < |d| && d[k].path == q && Visible(d, k)
      {
        assert d[o - 1].path == q && Visible(d, o - 1);
      }
      SameAnswer(c, d, now, now, q);
    }
  }

  /** Exactly what is found after a put. */
  lemma PutExactly<V>(c: Cache<V>, capacity: nat, now: nat, p: Word, lh: V, q: Word)
    requires Orderly(c, now) && capacity >= 1
    ensures var i, full := Find(c, p), |c| >= capacity;
      GetResult(Put(c, capacity, p, lh, now), q) ==
      if i < |c| then
        if q == p then Some(lh) else if c[i].anchor && Slot(q) == Slot(p) then None else GetResult(c, q)
      else if full && Slot(q) == Slot(c[0].path) then None
      else if q == p then Some(lh) else GetResult(c, q)
  {
    var i := Find(c, p);
    if i < |c| {
      TouchExactly(c, now, i, lh, q);
    } else {
      AppendExactly(c, now, p, lh, q);
      if |c| >= capacity {
        EvictExactly(Append(c, p, lh, now), now + 1, q);
      }
    }
  }

  // ---------- a removal ----------

  /** Removing a removable entry hides its path only. */
  lemma RemoveExactly<V>(c: Cache<V>, now: nat, p: Word, q: Word)
    requires Orderly(c, now) && Admits(c, RemoveOp(p))
    ensures GetResult(Removed(c, p), q) == if q == p then None else GetResult(c, q)
  {
    var i, d := Find(c, p), Removed(c, p);
    if i < |c| {
      var latest := SomeFresh(c, now);
      RemoveKeeps(c, p, now, latest);
      RemoveOrderly(c, p, now);
      if q != p {
        RemovedSame(c, i, d, now, q);
      }
    }
  }

  lemma RemovedSame<V>(c: Cache<V>, i: nat, d: Cache<V>, now: nat, q: Word)
    requires Orderly(c, now) && Orderly(d, now) && i < |c| && Removable(c, i) && d == Remove(c, i) && q != c[i].path
    ensures GetResult(d, q) == GetResult(c, q)
  {
    assert |d| == |c| - 1;
    forall k | 0 <= k < |d|
      ensures d[k].path == c[Origin(i, k)].path && d[k].lh == c[Origin(i, k)].lh
      ensures Visible(d, k) <==> Visible(c, Origin(i, k))
    {
      RemoveVisible(c, i, k);
      if Visible(c, Origin(i, k)) {
        RemoveStaysVisible(c, i, k);
      }
    }
    forall o | 0 <= o < |c| && c[o].path == q && Visible(c, o)
      ensures exists k :: 0 <= k < |d| && d[k].path == q && Visible(d, k)
    {
      var k := if o < i then o else o - 1;
      assert Origin(i, k) == o;
    }
    SameAnswer(c, d, now, now, q);
  }

  // ---------- in every run ----------

  /** A slot points at the first entry in the list that a lookup finds there. */
  lemma AnchorIsFirst<V>(c: Cache<V>, now: nat, i: nat)
    requires Orderly(c, now) && i < |c| && Visible(c, i)
    ensures c[i].anchor <==> forall j | 0 <= j < i && Slot(c[j].path) == Slot(c[i].path) :: !Visible(c, j)
  {
    var a :| 0 <= a <= i && c[a].anchor && Slot(c[a].path) == Slot(c[i].path);
    assert Visible(c, a);
    if j :| 0 <= j < i && Slot(c[j].path) == Slot(c[i].path) && Visible(c, j) {
      var b :| 0 <= b <= j && c[b].anchor && Slot(c[b].path) == Slot(c[j].path);
    }
  }

  ghost predicate Found<V>(cs: seq<Cache<V>>, n: nat, q: Word)
    requires n < |cs|
  {
    GetResult(cs[n], q).Some?
  }

  /** Of the paths that are found in the slot of p, p was used longest ago. */
  ghost predicate OldestOfSlot<V>(cs: seq<Cache<V>>, ops: seq<Op<V>>, n: nat, p: Word)
    requires n <= |ops| && n < |cs|
  {
    forall r | r != p && Slot(r) == Slot(p) && Found(cs, n, r) :: LastUse(cs, ops, n, p) < LastUse(cs, ops, n, r)
  }

  lemma AnchorIsOldest<V>(cs: seq<Cache<V>>, ops: seq<Op<V>>, capacity: nat, n: nat, p: Word)
    requires Trace(cs, ops, capacity) && n <= |ops| && Find(cs[n], p) < |cs[n]|
    ensures cs[n][Find(cs[n], p)].anchor <==> OldestOfSlot(cs, ops, n, p)
  {
    var latest := RunKeeps(cs, ops, capacity, n);
    RunStamps(cs, ops, capacity, n);
    var c, i := cs[n], Find(cs[n], p);
    AnchorIsFirst(c, n, i);
    forall r | r != p && Slot(r) == Slot(p) && Found(cs, n, r)
      ensures LastUse(cs, ops, n, p) < LastUse(cs, ops, n, r) <==> i < Find(c, r)
    {
      var j := Find(c, r);
      assert Visible(c, j) && Visible(c, i) && j != i;
    }
    forall j | 0 <= j < |c| && j != i && Slot(c[j].path) == Slot(p) && Visible(c, j)
      ensures c[j].path != p && Found(cs, n, c[j].path) && Find(c, c[j].path) == j
    {
      OnlyVisible(c, n, i, j);
      FindsVisible(c, n, j);
      if Find(c, c[j].path) != j {
        OnlyVisible(c, n, j, Find(c, c[j].path));
      }
    }
  }

  /** Looking up the path that was used longest ago of those found in its slot hides all the others; looking up any
      other path hides nothing. */
  lemma GetHidesExactly<V>(cs: seq<Cache<V>>, ops: seq<Op<V>>, capacity: nat, n: nat, p: Word, q: Word)
    requires Trace(cs, ops, capacity) && n < |ops| && ops[n] == GetOp(p)
    ensures GetResult(cs[n + 1], q) ==
      if Found(cs, n, p) && OldestOfSlot(cs, ops, n, p) && q != p && Slot(q) == Slot(p) then None
      else GetResult(cs[n], q)
  {
    var latest := RunKeeps(cs, ops, capacity, n);
    assert StepAt(cs, ops, capacity, n);
    GetExactly(cs[n], n, p, q);
    if Found(cs, n, p) {
      AnchorIsOldest(cs, ops, capacity, n, p);
    }
  }

  /** A put of a path that is found hides the same ones. A put of another path adds it and hides nothing, unless
      the cache is full: then all paths in the slot of the entry at the head are hidden, the new one among them. */
  lemma PutHidesExactly<V>(cs: seq<Cache<V>>, ops: seq<Op<V>>, capacity: nat, n: nat, p: Word, lh: V, q: Word)
    requires Trace(cs, ops, capacity) && n < |ops| && ops[n] == PutOp(p, lh)
    ensures GetResult(cs[n + 1], q) ==
      if Found(cs, n, p) then
        if q == p then Some(lh)
        else if OldestOfSlot(cs, ops, n, p) && Slot(q) == Slot(p) then None
        else GetResult(cs[n], q)
      else if |cs[n]| >= capacity && Slot(q) == Slot(cs[n][0].path) then None
      else if q == p then Some(lh)
      else GetResult(cs[n], q)
  {
    var latest := RunKeeps(cs, ops, capacity, n);
    assert StepAt(cs, ops, capacity, n);
    PutExactly(cs[n], capacity, n, p, lh, q);
    if Found(cs, n, p) {
      AnchorIsOldest(cs, ops, capacity, n, p);
    }
  }

  lemma RemoveHidesExactly<V>(cs: seq<Cache<V>>, ops: seq<Op<V>>, capacity: nat, n: nat, p: Word, q: Word)
    requires Trace(cs, ops, capacity) && n < |ops| && ops[n] == RemoveOp(p)
    ensures GetResult(cs[n + 1], q) == if q == p then None else GetResult(cs[n], q)
  {
    var latest := RunKeeps(cs, ops, capacity, n);
    assert StepAt(cs, ops, capacity, n);
    RemoveExactly(cs[n], n, p, q);
  }
}
