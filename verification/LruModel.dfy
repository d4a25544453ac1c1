/** The cache as a value: the recency list, oldest first. An entry is an anchor when its hash slot
    points at it; a lookup walks the recency list from the slot's anchor to the end. */
module LruModel {
  import opened Words
  import opened Wrappers

  datatype Entry<V> = Entry(path: Word, lh: V, anchor: bool, stamp: nat)
  type Cache<V> = seq<Entry<V>>

  /** djb2 on 64-bit words. */
  function Djb2(hash: nat, s: Word): nat
    decreases s
  {
    if s == [] then hash else Djb2((hash * 33 + s[0] as int) % 0x1_0000_0000_0000_0000, s[1..])
  }

  function Slot(path: Word): (h: nat)
    ensures h < 31
  {
    Djb2(5381, path) % 31
  }

  /** An entry is visible when its slot's anchor stands at or before it. */
  ghost predicate Visible<V>(c: Cache<V>, i: nat)
    requires i < |c|
  {
    exists a :: 0 <= a <= i && c[a].anchor && Slot(c[a].path) == Slot(c[i].path)
  }

  /** The first anchor of slot h from index k on. */
  ghost function AnchorFrom<V>(c: Cache<V>, h: nat, k: nat): (a: nat)
    requires k <= |c|
    ensures k <= a <= |c|
    ensures a < |c| ==> c[a].anchor && Slot(c[a].path) == h
    ensures forall j | k <= j < a :: !(c[j].anchor && Slot(c[j].path) == h)
    decreases |c| - k
  {
    if k == |c| || (c[k].anchor && Slot(c[k].path) == h) then k else AnchorFrom(c, h, k + 1)
  }

  /** The first entry of path p from index k on. */
  ghost function PathFrom<V>(c: Cache<V>, p: Word, k: nat): (i: nat)
    requires k <= |c|
    ensures k <= i <= |c|
    ensures i < |c| ==> c[i].path == p
    ensures forall j | k <= j < i :: c[j].path != p
    decreases |c| - k
  {
    if k == |c| || c[k].path == p then k else PathFrom(c, p, k + 1)
  }

  /** Where a lookup of p ends: its first visible entry, or the end of the list. */
  ghost function Find<V>(c: Cache<V>, p: Word): (i: nat)
    ensures i <= |c|
    ensures i < |c| ==> c[i].path == p && Visible(c, i)
    ensures i == |c| ==> forall j | 0 <= j < |c| && c[j].path == p :: !Visible(c, j)
  {
    PathFrom(c, p, AnchorFrom(c, Slot(p), 0))
  }

  ghost function Drop<T>(s: seq<T>, i: nat): seq<T>
    requires i < |s|
  {
    s[..i] + s[i + 1..]
  }

  /** A hit moves the entry to the end. */
  ghost function Touch<V>(c: Cache<V>, i: nat, lh: V, now: nat): Cache<V>
    requires i < |c|
  {
    Drop(c, i) + [c[i].(lh := lh, stamp := now)]
  }

  ghost function Get<V>(c: Cache<V>, p: Word, now: nat): Cache<V> {
    var i := Find(c, p);
    if i < |c| then Touch(c, i, c[i].lh, now) else c
  }

  ghost function GetResult<V>(c: Cache<V>, p: Word): Option<V> {
    var i := Find(c, p);
    if i < |c| then Some(c[i].lh) else None
  }

  /** Eviction removes the oldest entry and empties its hash slot, whoever the slot points at. */
  ghost function Evict<V>(c: Cache<V>): Cache<V>
    requires c != []
  {
    seq(|c| - 1, k requires 0 <= k < |c| - 1 => Unanchor(c[k + 1], Slot(c[0].path)))
  }

  ghost function Unanchor<V>(e: Entry<V>, h: nat): Entry<V> {
    e.(anchor := e.anchor && Slot(e.path) != h)
  }

  ghost function Append<V>(c: Cache<V>, p: Word, lh: V, now: nat): Cache<V> {
    c + [Entry(p, lh, AnchorFrom(c, Slot(p), 0) == |c|, now)]
  }

  ghost function Put<V>(c: Cache<V>, capacity: nat, p: Word, lh: V, now: nat): Cache<V> {
    var i := Find(c, p);
    if i < |c| then Touch(c, i, lh, now)
    else if |c| >= capacity then Evict(Append(c, p, lh, now))
    else Append(c, p, lh, now)
  }

  ghost function UnanchorAll<V>(c: Cache<V>, h: nat): Cache<V> {
    seq(|c|, k requires 0 <= k < |c| => Unanchor(c[k], h))
  }

  /** The list with room for one more entry. */
  ghost function Room<V>(c: Cache<V>, capacity: nat): Cache<V>
    requires capacity > 0
  {
    if |c| >= capacity then UnanchorAll(c, Slot(c[0].path))[1..] else c
  }

  /** The entry of a new path. Its slot is emptied with the others when it is the slot of the oldest entry. */
  ghost function NewEntry<V>(c: Cache<V>, capacity: nat, p: Word, lh: V, now: nat): Entry<V>
    requires capacity > 0
  {
    Entry(p, lh, AnchorFrom(c, Slot(p), 0) == |c| && !(|c| >= capacity && Slot(p) == Slot(c[0].path)), now)
  }

  lemma EvictAppendAt<V>(c: Cache<V>, p: Word, lh: V, now: nat, k: nat)
    requires c != [] && k < |c|
    ensures var h := Slot(c[0].path);
      Evict(Append(c, p, lh, now))[k]
      == if k < |c| - 1 then Unanchor(c[k + 1], h)
         else Entry(p, lh, AnchorFrom(c, Slot(p), 0) == |c| && Slot(p) != h, now)
  {
    var d := Append(c, p, lh, now);
    assert d[0] == c[0];
    assert Evict(d)[k] == Unanchor(d[k + 1], Slot(d[0].path));
  }

  /** Making room before appending, as the code does, comes to the same. */
  lemma PutMakesRoom<V>(c: Cache<V>, capacity: nat, p: Word, lh: V, now: nat)
    requires capacity > 0 && Find(c, p) == |c|
    ensures Put(c, capacity, p, lh, now) == Room(c, capacity) + [NewEntry(c, capacity, p, lh, now)]
  {
    if |c| >= capacity {
      var room, e := Room(c, capacity), NewEntry(c, capacity, p, lh, now);
      forall k | 0 <= k < |c| ensures Evict(Append(c, p, lh, now))[k] == (room + [e])[k] {
        EvictAppendAt(c, p, lh, now, k);
      }
    }
  }

  // ---------- what every operation keeps ----------

  /** One anchor per slot; stamps grow along the list; of several entries of one path only the last
      can be visible. */
  ghost predicate Orderly<V>(c: Cache<V>, now: nat) {
    && (forall i, j | 0 <= i < j < |c| && c[i].anchor && c[j].anchor :: Slot(c[i].path) != Slot(c[j].path))
    && (forall i, j | 0 <= i < j < |c| :: c[i].stamp < c[j].stamp)
    && (forall i | 0 <= i < |c| :: c[i].stamp < now)
    && (forall i, j | 0 <= i < j < |c| && c[i].path == c[j].path :: !Visible(c, i))
  }

  /** A visible entry holds the latest value put for its path. */
  ghost predicate Fresh<V>(c: Cache<V>, latest: map<Word, V>) {
    forall i | 0 <= i < |c| && Visible(c, i) :: c[i].path in latest && c[i].lh == latest[c[i].path]
  }

  /** Where entry k of the list without entry i came from. */
  ghost function Origin(i: nat, k: nat): nat {
    if k < i then k else k + 1
  }

  lemma TouchVisible<V>(c: Cache<V>, i: nat, lh: V, now: nat, k: nat)
    requires i < |c| && k < |c|
    ensures |Touch(c, i, lh, now)| == |c|
    ensures k < |c| - 1 ==> Touch(c, i, lh, now)[k] == c[Origin(i, k)]
    ensures k < |c| - 1 && Visible(Touch(c, i, lh, now), k) ==> Visible(c, Origin(i, k))
    ensures Touch(c, i, lh, now)[|c| - 1] == c[i].(lh := lh, stamp := now)
  {
    var d := Touch(c, i, lh, now);
    if k < |c| - 1 && Visible(d, k) {
      var a :| 0 <= a <= k && d[a].anchor && Slot(d[a].path) == Slot(d[k].path);
      assert c[Origin(i, a)] == d[a];
    }
  }

  /** A hit keeps the order of the rest and hides nothing new behind the moved entry. */
  lemma TouchKeeps<V>(c: Cache<V>, i: nat, lh: V, now: nat)
    requires Orderly(c, now) && i < |c| && Visible(c, i)
    ensures Orderly(Touch(c, i, lh, now), now + 1)
  {
    var d := Touch(c, i, lh, now);
    forall k, l | 0 <= k < l < |d| ensures InOrder(d, k, l) {
      TouchPair(c, i, lh, now, k, l);
    }
    forall k | 0 <= k < |d| ensures d[k].stamp < now + 1 {
      TouchVisible(c, i, lh, now, k);
    }
    InOrderIsOrderly(d, now + 1);
  }

  ghost predicate InOrder<V>(c: Cache<V>, k: nat, l: nat)
    requires k < l < |c|
  {
    && (c[k].anchor && c[l].anchor ==> Slot(c[k].path) != Slot(c[l].path))
    && c[k].stamp < c[l].stamp
    && (c[k].path == c[l].path ==> !Visible(c, k))
  }

  lemma InOrderIsOrderly<V>(c: Cache<V>, now: nat)
    requires forall k, l {:trigger InOrder(c, k, l)} | 0 <= k < l < |c| :: InOrder(c, k, l)
    requires forall k | 0 <= k < |c| :: c[k].stamp < now
    ensures Orderly(c, now)
  {
    forall i, j | 0 <= i < j < |c|
      ensures c[i].anchor && c[j].anchor ==> Slot(c[i].path) != Slot(c[j].path)
      ensures c[i].stamp < c[j].stamp
      ensures c[i].path == c[j].path ==> !Visible(c, i)
    {
      assert InOrder(c, i, j);
    }
  }

  lemma TouchPair<V>(c: Cache<V>, i: nat, lh: V, now: nat, k: nat, l: nat)
    requires Orderly(c, now) && i < |c| && Visible(c, i) && k < l < |c|
    ensures |Touch(c, i, lh, now)| == |c| && InOrder(Touch(c, i, lh, now), k, l)
  {
    TouchVisible(c, i, lh, now, k);
    TouchVisible(c, i, lh, now, l);
    var ok := Origin(i, k);
    if l < |c| - 1 {
      var ol := Origin(i, l);
      assert ok < ol;
    } else if ok < i {
      assert c[ok].path == c[i].path ==> !Visible(c, ok);
    } else {
      assert i < ok && c[i].path != c[ok].path;
    }
  }

  lemma TouchFresh<V>(c: Cache<V>, i: nat, lh: V, now: nat, latest: map<Word, V>)
    requires Orderly(c, now) && i < |c| && Visible(c, i) && Fresh(c, latest)
    ensures Fresh(Touch(c, i, lh, now), latest[c[i].path := lh])
  {
    var d := Touch(c, i, lh, now);
    forall k | 0 <= k < |d| && Visible(d, k)
      ensures d[k].path in latest[c[i].path := lh] && d[k].lh == latest[c[i].path := lh][d[k].path]
    {
      TouchVisible(c, i, lh, now, k);
      if k < |c| - 1 {
        var o := Origin(i, k);
        assert Visible(c, o);
        assert c[o].path == c[i].path ==> o == i;
      }
    }
  }

  lemma AppendVisible<V>(c: Cache<V>, p: Word, lh: V, now: nat, k: nat)
    requires k < |c|
    ensures Append(c, p, lh, now)[k] == c[k] && (Visible(Append(c, p, lh, now), k) <==> Visible(c, k))
  {
    var d := Append(c, p, lh, now);
    if Visible(d, k) {
      var a :| 0 <= a <= k && d[a].anchor && Slot(d[a].path) == Slot(d[k].path);
      assert c[a] == d[a];
    }
    if Visible(c, k) {
      var a :| 0 <= a <= k && c[a].anchor && Slot(c[a].path) == Slot(c[k].path);
      assert c[a] == d[a];
    }
  }

  lemma AppendKeeps<V>(c: Cache<V>, p: Word, lh: V, now: nat, latest: map<Word, V>)
    requires Orderly(c, now) && Fresh(c, latest) && Find(c, p) == |c|
    ensures Orderly(Append(c, p, lh, now), now + 1) && Fresh(Append(c, p, lh, now), latest[p := lh])
  {
    var d := Append(c, p, lh, now);
    forall k, l | 0 <= k < l < |d|
      ensures d[k].anchor && d[l].anchor ==> Slot(d[k].path) != Slot(d[l].path)
      ensures d[k].stamp < d[l].stamp
      ensures d[k].path == d[l].path ==> !Visible(d, k)
    {
      AppendVisible(c, p, lh, now, k);
    }
    forall k | 0 <= k < |d| && Visible(d, k)
      ensures d[k].path in latest[p := lh] && d[k].lh == latest[p := lh][d[k].path]
    {
      if k < |c| {
        AppendVisible(c, p, lh, now, k);
      }
    }
  }

  lemma EvictVisible<V>(c: Cache<V>, k: nat)
    requires c != [] && k < |c| - 1
    ensures Evict(c)[k] == Unanchor(c[k + 1], Slot(c[0].path))
    ensures Visible(Evict(c), k) ==> Visible(c, k + 1)
  {
    var d := Evict(c);
    if Visible(d, k) {
      var a :| 0 <= a <= k && d[a].anchor && Slot(d[a].path) == Slot(d[k].path);
      assert c[a + 1].anchor && Slot(c[a + 1].path) == Slot(c[k + 1].path);
    }
  }

  lemma EvictKeeps<V>(c: Cache<V>, now: nat, latest: map<Word, V>)
    requires Orderly(c, now) && Fresh(c, latest) && c != []
    ensures Orderly(Evict(c), now) && Fresh(Evict(c), latest)
    ensures forall k | 0 <= k < |Evict(c)| :: c[0].stamp < Evict(c)[k].stamp
  {
    var d := Evict(c);
    forall k, l | 0 <= k < l < |d|
      ensures d[k].anchor && d[l].anchor ==> Slot(d[k].path) != Slot(d[l].path)
      ensures d[k].stamp < d[l].stamp
      ensures d[k].path == d[l].path ==> !Visible(d, k)
    {
      EvictVisible(c, k);
    }
    forall k | 0 <= k < |d| && Visible(d, k)
      ensures d[k].path in latest && d[k].lh == latest[d[k].path]
    {
      EvictVisible(c, k);
    }
  }

  // ---------- removal for a delete ----------

  /** removeForDelete leaves the hash slots in order exactly for these entries (see LruCache). */
  ghost predicate Removable<V>(c: Cache<V>, i: nat)
    requires i < |c|
  {
    !c[i].anchor || (i == 0 && (|c| == 1 || Slot(c[1].path) == Slot(c[0].path)))
  }

  ghost function Remove<V>(c: Cache<V>, i: nat): Cache<V>
    requires i < |c|
  {
    var d := Drop(c, i);
    if c[i].anchor && i < |d| then d[i := d[i].(anchor := true)] else d
  }

  lemma RemoveVisible<V>(c: Cache<V>, i: nat, k: nat)
    requires i < |c| && Removable(c, i) && k < |c| - 1
    ensures |Remove(c, i)| == |c| - 1
    ensures Remove(c, i)[k].path == c[Origin(i, k)].path && Remove(c, i)[k].stamp == c[Origin(i, k)].stamp
    ensures Remove(c, i)[k].lh == c[Origin(i, k)].lh
    ensures Visible(Remove(c, i), k) ==> Visible(c, Origin(i, k))
  {
    var d := Remove(c, i);
    if Visible(d, k) {
      var a :| 0 <= a <= k && d[a].anchor && Slot(d[a].path) == Slot(d[k].path);
      if c[i].anchor && a == 0 {
        assert Slot(c[0].path) == Slot(c[Origin(i, k)].path);
      } else {
        assert c[Origin(i, a)] == d[a];
      }
    }
  }

  lemma RemoveStaysVisible<V>(c: Cache<V>, i: nat, k: nat)
    requires i < |c| && Removable(c, i) && k < |c| - 1 && Visible(c, Origin(i, k))
    ensures |Remove(c, i)| == |c| - 1 && Visible(Remove(c, i), k)
  {
    RemoveVisible(c, i, k);
    var d, o := Remove(c, i), Origin(i, k);
    var a :| 0 <= a <= o && c[a].anchor && Slot(c[a].path) == Slot(c[o].path);
    var b := if a < i then a else if a == i then 0 else a - 1;
    assert d[b].anchor && Slot(d[b].path) == Slot(d[k].path);
  }

  lemma RemoveOrderly<V>(c: Cache<V>, p: Word, now: nat)
    requires Orderly(c, now) && Find(c, p) < |c| && Removable(c, Find(c, p))
    ensures Orderly(Remove(c, Find(c, p)), now)
  {
    var i := Find(c, p);
    var d := Remove(c, i);
    forall k, l | 0 <= k < l < |d| ensures InOrder(d, k, l) {
      RemoveVisible(c, i, k);
      RemoveVisible(c, i, l);
    }
    forall k | 0 <= k < |d| ensures d[k].stamp < now {
      RemoveVisible(c, i, k);
    }
    InOrderIsOrderly(d, now);
  }

  /** It unlinks that entry alone, keeps the invariants, and leaves nothing visible for its path. */
  lemma RemoveKeeps<V>(c: Cache<V>, p: Word, now: nat, latest: map<Word, V>)
    requires Orderly(c, now) && Fresh(c, latest) && Find(c, p) < |c| && Removable(c, Find(c, p))
    ensures var d := Remove(c, Find(c, p)); Orderly(d, now) && Fresh(d, latest - {p}) && GetResult(d, p).None?
  {
    var i := Find(c, p);
    var d := Remove(c, i);
    RemoveOrderly(c, p, now);
    forall k | 0 <= k < |d| && Visible(d, k)
      ensures d[k].path in latest - {p} && d[k].lh == latest[d[k].path]
    {
      RemoveVisible(c, i, k);
      OnlyVisible(c, now, i, Origin(i, k));
    }
  }

  /** Of two entries of one path at most one is visible. */
  lemma OnlyVisible<V>(c: Cache<V>, now: nat, i: nat, j: nat)
    requires Orderly(c, now) && i < |c| && j < |c| && i != j && Visible(c, i) && Visible(c, j)
    ensures c[i].path != c[j].path
  {}

  // ---------- whole runs ----------

  datatype Op<V> = GetOp(path: Word) | PutOp(path: Word, lh: V) | RemoveOp(path: Word)

  ghost function Apply<V>(c: Cache<V>, capacity: nat, op: Op<V>, now: nat): Cache<V> {
    match op
    case GetOp(p) => Get(c, p, now)
    case PutOp(p, lh) => Put(c, capacity, p, lh, now)
    case RemoveOp(p) => Removed(c, p)
  }

  /** removeForDelete of a path that is visible or not. */
  ghost function Removed<V>(c: Cache<V>, p: Word): Cache<V> {
    if Find(c, p) < |c| then Remove(c, Find(c, p)) else c
  }

  ghost function RemovedAll<V>(c: Cache<V>, ws: seq<Word>): Cache<V>
    decreases |ws|
  {
    if ws == [] then c else Removed(RemovedAll(c, ws[..|ws| - 1]), ws[|ws| - 1])
  }

  /** Removing the paths in turn only ever meets removable entries. */
  ghost predicate AdmitsAll<V>(c: Cache<V>, ws: seq<Word>)
    decreases |ws|
  {
    ws == [] || (AdmitsAll(c, ws[..|ws| - 1])
                 && Admits(RemovedAll(c, ws[..|ws| - 1]), RemoveOp(ws[|ws| - 1])))
  }

  /** A path that is not found is removed without a trace. */
  lemma MissesAreAdmitted<V>(c: Cache<V>, p: Word)
    requires Find(c, p) == |c|
    ensures AdmitsAll(c, [p, p]) && RemovedAll(c, [p, p]) == c
  {
    assert [] + [p] == [p] && [p] + [p] == [p, p];
    OneMore(c, [], p);
    OneMore(c, [p], p);
  }

  lemma OneMore<V>(c: Cache<V>, ws: seq<Word>, p: Word)
    ensures RemovedAll(c, ws + [p]) == Removed(RemovedAll(c, ws), p)
    ensures AdmitsAll(c, ws + [p]) <==> AdmitsAll(c, ws) && Admits(RemovedAll(c, ws), RemoveOp(p))
  {
    assert (ws + [p])[..|ws|] == ws;
  }

  /** Every entry of the path whose value is in vs is visible. */
  ghost predicate Seen<V>(c: Cache<V>, p: Word, vs: iset<V>) {
    forall k | 0 <= k < |c| && c[k].path == p && c[k].lh in vs :: Visible(c, k)
  }

  ghost predicate Gone<V>(c: Cache<V>, p: Word, vs: iset<V>) {
    forall k | 0 <= k < |c| :: !(c[k].path == p && c[k].lh in vs)
  }

  lemma RemovedSeen<V>(c: Cache<V>, q: Word, p: Word, vs: iset<V>, now: nat)
    requires Orderly(c, now) && Admits(c, RemoveOp(q)) && Seen(c, p, vs)
    ensures Orderly(Removed(c, q), now) && Seen(Removed(c, q), p, vs)
    ensures p == q || Gone(c, p, vs) ==> Gone(Removed(c, q), p, vs)
  {
    var i := Find(c, q);
    if i < |c| {
      RemoveOrderly(c, q, now);
      var d := Remove(c, i);
      forall k | 0 <= k < |d| && d[k].path == p && d[k].lh in vs
        ensures Visible(d, k) && p != q && !Gone(c, p, vs)
      {
        RemoveVisible(c, i, k);
        RemoveStaysVisible(c, i, k);
        if p == q {
          OnlyVisible(c, now, i, Origin(i, k));
        }
      }
    }
  }

  /** Removing paths in turn takes out every entry of theirs that is visible, however many share its path. */
  lemma {:induction false} RemovedAllGone<V>(c: Cache<V>, ws: seq<Word>, p: Word, vs: iset<V>, now: nat)
    requires Orderly(c, now) && AdmitsAll(c, ws) && Seen(c, p, vs)
    ensures Orderly(RemovedAll(c, ws), now) && Seen(RemovedAll(c, ws), p, vs)
    ensures p in ws ==> Gone(RemovedAll(c, ws), p, vs)
    decreases |ws|
  {
    if ws != [] {
      var fewer, q := ws[..|ws| - 1], ws[|ws| - 1];
      RemovedAllGone(c, fewer, p, vs, now);
      RemovedSeen(RemovedAll(c, fewer), q, p, vs, now);
      assert p in ws ==> p == q || p in fewer;
    }
  }

  /** Only removable entries are removed. */
  ghost predicate Admits<V>(c: Cache<V>, op: Op<V>) {
    op.RemoveOp? && Find(c, op.path) < |c| ==> Removable(c, Find(c, op.path))
  }

  /** The caches of a run from the empty cache; operation k happens at time k. */
  ghost predicate Trace<V>(cs: seq<Cache<V>>, ops: seq<Op<V>>, capacity: nat) {
    && capacity >= 2 && |cs| == |ops| + 1 && cs[0] == []
    && forall k {:trigger StepAt(cs, ops, capacity, k)} | 0 <= k < |ops| :: StepAt(cs, ops, capacity, k)
  }

  ghost predicate StepAt<V>(cs: seq<Cache<V>>, ops: seq<Op<V>>, capacity: nat, k: nat)
    requires k < |ops| && |cs| == |ops| + 1
  {
    Admits(cs[k], ops[k]) && cs[k + 1] == Apply(cs[k], capacity, ops[k], k)
  }

  /** The latest of the first n operations that put or remove p, counted from 1; 0 if there is none. */
  ghost function LastSet<V>(ops: seq<Op<V>>, n: nat, p: Word): (k: nat)
    requires n <= |ops|
    ensures k <= n && (k > 0 ==> !ops[k - 1].GetOp? && ops[k - 1].path == p)
    ensures forall j | k <= j < n :: ops[j].GetOp? || ops[j].path != p
  {
    if n == 0 || (!ops[n - 1].GetOp? && ops[n - 1].path == p) then n else LastSet(ops, n - 1, p)
  }

  /** p was put, and not removed since. */
  ghost predicate IsPut<V>(ops: seq<Op<V>>, n: nat, p: Word)
    requires n <= |ops|
  {
    LastSet(ops, n, p) > 0 && ops[LastSet(ops, n, p) - 1].PutOp?
  }

  /** Operation k puts p or hits p. */
  ghost predicate Uses<V>(cs: seq<Cache<V>>, ops: seq<Op<V>>, k: nat, p: Word)
    requires k < |ops| && k < |cs|
  {
    ops[k].path == p && (ops[k].PutOp? || (ops[k].GetOp? && Find(cs[k], p) < |cs[k]|))
  }

  /** The latest of the first n operations that put or hit p, counted from 1; 0 if there is none. */
  ghost function LastUse<V>(cs: seq<Cache<V>>, ops: seq<Op<V>>, n: nat, p: Word): (k: nat)
    requires n <= |ops| && n <= |cs|
    ensures k <= n && (k > 0 ==> Uses(cs, ops, k - 1, p))
    ensures forall j | k <= j < n :: !Uses(cs, ops, j, p)
  {
    if n == 0 || Uses(cs, ops, n - 1, p) then n else LastUse(cs, ops, n - 1, p)
  }

  lemma PutKeeps<V>(c: Cache<V>, capacity: nat, p: Word, lh: V, now: nat, latest: map<Word, V>)
    requires Orderly(c, now) && Fresh(c, latest) && |c| <= capacity && capacity >= 2
    ensures Orderly(Put(c, capacity, p, lh, now), now + 1) && Fresh(Put(c, capacity, p, lh, now), latest[p := lh])
    ensures |Put(c, capacity, p, lh, now)| <= capacity
  {
    var i := Find(c, p);
    if i < |c| {
      TouchKeeps(c, i, lh, now);
      TouchFresh(c, i, lh, now, latest);
    } else {
      AppendKeeps(c, p, lh, now, latest);
      if |c| >= capacity {
        EvictKeeps(Append(c, p, lh, now), now + 1, latest[p := lh]);
      }
    }
  }

  lemma GetKeeps<V>(c: Cache<V>, p: Word, now: nat, latest: map<Word, V>)
    requires Orderly(c, now) && Fresh(c, latest)
    ensures Orderly(Get(c, p, now), now + 1) && Fresh(Get(c, p, now), latest) && |Get(c, p, now)| == |c|
  {
    var i := Find(c, p);
    if i < |c| {
      TouchKeeps(c, i, c[i].lh, now);
      TouchFresh(c, i, c[i].lh, now, latest);
      assert latest[c[i].path := c[i].lh] == latest;
    }
  }

  ghost function Learn<V>(latest: map<Word, V>, op: Op<V>): map<Word, V> {
    match op
    case GetOp(_) => latest
    case PutOp(p, lh) => latest[p := lh]
    case RemoveOp(p) => latest - {p}
  }

  lemma StepKeeps<V>(c: Cache<V>, capacity: nat, op: Op<V>, now: nat, latest: map<Word, V>)
    requires Orderly(c, now) && Fresh(c, latest) && |c| <= capacity && capacity >= 2 && Admits(c, op)
    ensures Orderly(Apply(c, capacity, op, now), now + 1) && Fresh(Apply(c, capacity, op, now), Learn(latest, op))
    ensures |Apply(c, capacity, op, now)| <= capacity
  {
    match op
    case GetOp(p) => GetKeeps(c, p, now, latest);
    case PutOp(p, lh) => PutKeeps(c, capacity, p, lh, now, latest);
    case RemoveOp(p) => RemovedKeeps(c, p, now, latest);
  }

  lemma RemovedKeeps<V>(c: Cache<V>, p: Word, now: nat, latest: map<Word, V>)
    requires Orderly(c, now) && Fresh(c, latest) && Admits(c, RemoveOp(p))
    ensures Orderly(Removed(c, p), now + 1) && Fresh(Removed(c, p), latest - {p}) && |Removed(c, p)| <= |c|
  {
    if Find(c, p) < |c| {
      RemoveKeeps(c, p, now, latest);
    } else {
      NotThere(c, p, latest);
    }
  }

  lemma NotThere<V>(c: Cache<V>, p: Word, latest: map<Word, V>)
    requires Fresh(c, latest) && Find(c, p) == |c|
    ensures Fresh(c, latest - {p})
  {
    forall i | 0 <= i < |c| && Visible(c, i)
      ensures c[i].path in latest - {p} && c[i].lh == (latest - {p})[c[i].path]
    {
      assert c[i].path != p;
    }
  }

  ghost predicate Knows<V>(latest: map<Word, V>, ops: seq<Op<V>>, n: nat, p: Word)
    requires n <= |ops|
  {
    && (p in latest <==> IsPut(ops, n, p))
    && (p in latest ==> latest[p] == ops[LastSet(ops, n, p) - 1].lh)
  }

  /** latest is what the first n operations put last. */
  ghost predicate Remembers<V>(latest: map<Word, V>, ops: seq<Op<V>>, n: nat)
    requires n <= |ops|
  {
    forall p :: Knows(latest, ops, n, p)
  }

  lemma LearnRemembers<V>(latest: map<Word, V>, ops: seq<Op<V>>, n: nat)
    requires n < |ops| && Remembers(latest, ops, n)
    ensures Remembers(Learn(latest, ops[n]), ops, n + 1)
  {
    var learnt, next := Learn(latest, ops[n]), n + 1;
    forall p ensures Knows(learnt, ops, next, p) {
      assert Knows(latest, ops, n, p);
      LearnAt(latest, ops, n, p);
    }
  }

  lemma LearnAt<V>(latest: map<Word, V>, ops: seq<Op<V>>, n: nat, p: Word)
    requires n < |ops| && Knows(latest, ops, n, p)
    ensures Knows(Learn(latest, ops[n]), ops, n + 1, p)
  {
    LastSetNext(ops, n, p);
  }

  lemma LastSetNext<V>(ops: seq<Op<V>>, n: nat, p: Word)
    requires n < |ops|
    ensures LastSet(ops, n + 1, p) == if !ops[n].GetOp? && ops[n].path == p then n + 1 else LastSet(ops, n, p)
  {}

  /** What holds after n operations of a run. */
  ghost predicate Kept<V>(cs: seq<Cache<V>>, ops: seq<Op<V>>, capacity: nat, n: nat, latest: map<Word, V>)
    requires n <= |ops| && n < |cs|
  {
    Orderly(cs[n], n) && Fresh(cs[n], latest) && |cs[n]| <= capacity && Remembers(latest, ops, n)
  }

  lemma NextKept<V>(cs: seq<Cache<V>>, ops: seq<Op<V>>, capacity: nat, n: nat, latest: map<Word, V>)
    requires Trace(cs, ops, capacity) && n < |ops| && Kept(cs, ops, capacity, n, latest)
    ensures Kept(cs, ops, capacity, n + 1, Learn(latest, ops[n]))
  {
    assert StepAt(cs, ops, capacity, n);
    StepKeeps(cs[n], capacity, ops[n], n, latest);
    LearnRemembers(latest, ops, n);
  }

  /** In every run the list stays ordered by last use and within its capacity, and every visible entry
      holds what was put last for its path. */
  lemma {:induction false} RunKeeps<V>(cs: seq<Cache<V>>, ops: seq<Op<V>>, capacity: nat, n: nat)
    returns (latest: map<Word, V>)
    requires Trace(cs, ops, capacity) && n <= |ops|
    ensures Kept(cs, ops, capacity, n, latest)
  {
    if n == 0 {
      latest := map[];
    } else {
      latest := RunKeeps(cs, ops, capacity, n - 1);
      NextKept(cs, ops, capacity, n - 1, latest);
      latest := Learn(latest, ops[n - 1]);
    }
  }

  /** A hit returns the list of the most recent put for its path, and the path was not removed since. */
  lemma HitIsLatestPut<V>(cs: seq<Cache<V>>, ops: seq<Op<V>>, capacity: nat, n: nat, p: Word)
    requires Trace(cs, ops, capacity) && n <= |ops| && GetResult(cs[n], p).Some?
    ensures IsPut(ops, n, p) && GetResult(cs[n], p).value == ops[LastSet(ops, n, p) - 1].lh
  {
    var latest := RunKeeps(cs, ops, capacity, n);
    KeptHit(cs, ops, capacity, n, latest, p);
  }

  ghost predicate Misses<V>(cs: seq<Cache<V>>, n: nat, p: Word) {
    n < |cs| && GetResult(cs[n], p).None?
  }

  /** A path that misses goes on missing until it is put. */
  lemma {:induction false} MissesUntilPut<V>(cs: seq<Cache<V>>, ops: seq<Op<V>>, capacity: nat, j: nat, n: nat, p: Word)
    requires Trace(cs, ops, capacity) && j <= n <= |ops| && Misses(cs, j, p)
    requires forall k | j <= k < n && ops[k].PutOp? :: ops[k].path != p
    ensures Misses(cs, n, p)
  {
    if j < n {
      MissesUntilPut(cs, ops, capacity, j, n - 1, p);
      MissStays(cs, ops, capacity, n - 1, p);
    }
  }

  lemma MissStays<V>(cs: seq<Cache<V>>, ops: seq<Op<V>>, capacity: nat, n: nat, p: Word)
    requires Trace(cs, ops, capacity) && n < |ops| && Misses(cs, n, p)
    requires ops[n].PutOp? ==> ops[n].path != p
    ensures Misses(cs, n + 1, p)
  {
    var latest := RunKeeps(cs, ops, capacity, n);
    assert StepAt(cs, ops, capacity, n);
    FreshWithout(cs[n], latest, p);
    StepKeeps(cs[n], capacity, ops[n], n, latest - {p});
    if GetResult(cs[n + 1], p).Some? {
      FreshHit(cs[n + 1], Learn(latest - {p}, ops[n]), p);
    }
  }

  /** What is known of a path that misses need not be known. */
  lemma FreshWithout<V>(c: Cache<V>, latest: map<Word, V>, p: Word)
    requires Fresh(c, latest) && GetResult(c, p).None?
    ensures Fresh(c, latest - {p})
  {}

  /** So after a removal a path misses until it is put again. */
  lemma RemovedMisses<V>(cs: seq<Cache<V>>, ops: seq<Op<V>>, capacity: nat, j: nat, n: nat, p: Word)
    requires Trace(cs, ops, capacity) && j < n <= |ops| && ops[j] == RemoveOp(p)
    requires forall k | j <= k < n && ops[k].PutOp? :: ops[k].path != p
    ensures GetResult(cs[n], p).None?
  {
    RemovalMisses(cs, ops, capacity, j, p);
    MissesUntilPut(cs, ops, capacity, j + 1, n, p);
  }

  lemma RemovalMisses<V>(cs: seq<Cache<V>>, ops: seq<Op<V>>, capacity: nat, j: nat, p: Word)
    requires Trace(cs, ops, capacity) && j < |ops| && ops[j] == RemoveOp(p)
    ensures Misses(cs, j + 1, p)
  {
    var latest := RunKeeps(cs, ops, capacity, j);
    assert StepAt(cs, ops, capacity, j);
    if Find(cs[j], p) < |cs[j]| {
      RemoveKeeps(cs[j], p, j, latest);
    }
  }

  lemma KeptHit<V>(cs: seq<Cache<V>>, ops: seq<Op<V>>, capacity: nat, n: nat, latest: map<Word, V>, p: Word)
    requires n <= |ops| && n < |cs| && Kept(cs, ops, capacity, n, latest) && GetResult(cs[n], p).Some?
    ensures IsPut(ops, n, p) && GetResult(cs[n], p).value == ops[LastSet(ops, n, p) - 1].lh
  {
    FreshHit(cs[n], latest, p);
    LatestIsLastSet(latest, ops, n, p);
  }

  lemma LatestIsLastSet<V>(latest: map<Word, V>, ops: seq<Op<V>>, n: nat, p: Word)
    requires n <= |ops| && Remembers(latest, ops, n) && p in latest
    ensures IsPut(ops, n, p) && latest[p] == ops[LastSet(ops, n, p) - 1].lh
  {
    assert Knows(latest, ops, n, p);
  }

  lemma FreshHit<V>(c: Cache<V>, latest: map<Word, V>, p: Word)
    requires Fresh(c, latest) && GetResult(c, p).Some?
    ensures p in latest && GetResult(c, p).value == latest[p]
  {
    var i := Find(c, p);
    assert Visible(c, i);
  }

  /** Every visible entry carries the time of the last put or hit of its path. */
  ghost predicate Stamped<V>(cs: seq<Cache<V>>, ops: seq<Op<V>>, n: nat)
    requires n <= |ops| && n < |cs|
  {
    forall i | 0 <= i < |cs[n]| && Visible(cs[n], i) :: cs[n][i].stamp + 1 == LastUse(cs, ops, n, cs[n][i].path)
  }

  lemma TouchStamps<V>(cs: seq<Cache<V>>, ops: seq<Op<V>>, n: nat, i: nat, lh: V)
    requires n < |ops| && n + 1 < |cs| && Orderly(cs[n], n) && Stamped(cs, ops, n)
    requires i < |cs[n]| && Visible(cs[n], i) && Uses(cs, ops, n, cs[n][i].path)
    requires cs[n + 1] == Touch(cs[n], i, lh, n)
    ensures Stamped(cs, ops, n + 1)
  {
    var c, d := cs[n], cs[n + 1];
    forall k | 0 <= k < |d| && Visible(d, k) ensures d[k].stamp + 1 == LastUse(cs, ops, n + 1, d[k].path) {
      TouchVisible(c, i, lh, n, k);
      if k < |c| - 1 {
        var o := Origin(i, k);
        assert c[o].path == c[i].path ==> o == i;
      }
    }
  }

  lemma NewStamps<V>(cs: seq<Cache<V>>, ops: seq<Op<V>>, capacity: nat, n: nat, p: Word, lh: V)
    requires n < |ops| && n + 1 < |cs| && Stamped(cs, ops, n)
    requires ops[n] == PutOp(p, lh) && Find(cs[n], p) == |cs[n]|
    requires cs[n + 1] == Put(cs[n], capacity, p, lh, n)
    ensures Stamped(cs, ops, n + 1)
  {
    var c, d := cs[n], cs[n + 1];
    var e := Append(c, p, lh, n);
    forall k | 0 <= k < |d| && Visible(d, k) ensures d[k].stamp + 1 == LastUse(cs, ops, n + 1, d[k].path) {
      var o := if |c| >= capacity then k + 1 else k;
      if |c| >= capacity {
        EvictVisible(e, k);
      }
      assert d[k].path == e[o].path && d[k].stamp == e[o].stamp && Visible(e, o);
      if o < |c| {
        AppendVisible(c, p, lh, n, o);
      }
    }
  }

  lemma MissStamps<V>(cs: seq<Cache<V>>, ops: seq<Op<V>>, n: nat, p: Word)
    requires n < |ops| && n + 1 < |cs| && Stamped(cs, ops, n)
    requires ops[n] == GetOp(p) && Find(cs[n], p) == |cs[n]| && cs[n + 1] == cs[n]
    ensures Stamped(cs, ops, n + 1)
  {}

  lemma RemoveStamps<V>(cs: seq<Cache<V>>, ops: seq<Op<V>>, n: nat, p: Word)
    requires n < |ops| && n + 1 < |cs| && Stamped(cs, ops, n)
    requires ops[n] == RemoveOp(p) && Admits(cs[n], ops[n]) && cs[n + 1] == Removed(cs[n], p)
    ensures Stamped(cs, ops, n + 1)
  {
    var c, d := cs[n], cs[n + 1];
    forall k | 0 <= k < |d| && Visible(d, k) ensures d[k].stamp + 1 == LastUse(cs, ops, n + 1, d[k].path) {
      if Find(c, p) < |c| {
        RemoveVisible(c, Find(c, p), k);
      }
    }
  }

  lemma StepStamps<V>(cs: seq<Cache<V>>, ops: seq<Op<V>>, capacity: nat, n: nat)
    requires Trace(cs, ops, capacity) && n < |ops| && Stamped(cs, ops, n)
    ensures Stamped(cs, ops, n + 1)
  {
    var latest := RunKeeps(cs, ops, capacity, n);
    assert StepAt(cs, ops, capacity, n);
    var i := Find(cs[n], ops[n].path);
    if ops[n].RemoveOp? {
      RemoveStamps(cs, ops, n, ops[n].path);
    } else if i < |cs[n]| {
      TouchStamps(cs, ops, n, i, if ops[n].PutOp? then ops[n].lh else cs[n][i].lh);
    } else if ops[n].PutOp? {
      NewStamps(cs, ops, capacity, n, ops[n].path, ops[n].lh);
    } else {
      MissStamps(cs, ops, n, ops[n].path);
    }
  }

  lemma EmptyStamped<V>(cs: seq<Cache<V>>, ops: seq<Op<V>>)
    requires |cs| > 0 && cs[0] == []
    ensures Stamped(cs, ops, 0)
  {}

  lemma {:induction false} RunStamps<V>(cs: seq<Cache<V>>, ops: seq<Op<V>>, capacity: nat, n: nat)
    requires Trace(cs, ops, capacity) && n <= |ops|
    ensures Stamped(cs, ops, n)
  {
    if n == 0 {
      EmptyStamped(cs, ops);
    } else {
      RunStamps(cs, ops, capacity, n - 1);
      StepStamps(cs, ops, capacity, n - 1);
    }
  }

  /** Every entry, visible or not, was put or hit at the time it carries. */
  ghost predicate Used<V>(cs: seq<Cache<V>>, ops: seq<Op<V>>, n: nat)
    requires n <= |ops| && n < |cs|
  {
    forall i | 0 <= i < |cs[n]| :: UsedAt(cs, ops, n, cs[n][i])
  }

  ghost predicate UsedAt<V>(cs: seq<Cache<V>>, ops: seq<Op<V>>, n: nat, e: Entry<V>)
    requires n <= |ops| && n < |cs|
  {
    e.stamp < n && Uses(cs, ops, e.stamp, e.path)
  }

  ghost predicate Same<V>(e: Entry<V>, f: Entry<V>) {
    e.path == f.path && e.stamp == f.stamp
  }

  ghost predicate ComesFrom<V>(e: Entry<V>, c: Cache<V>) {
    exists o :: 0 <= o < |c| && Same(c[o], e)
  }

  /** Where an entry of the next cache comes from. */
  lemma NextFrom<V>(c: Cache<V>, capacity: nat, op: Op<V>, now: nat, k: nat)
    requires capacity >= 2 && Admits(c, op) && k < |Apply(c, capacity, op, now)|
    ensures var e := Apply(c, capacity, op, now)[k];
      || (e.stamp == now && e.path == op.path && !op.RemoveOp? && (op.PutOp? || Find(c, op.path) < |c|))
      || ComesFrom(e, c)
  {
    var i, d := Find(c, op.path), Apply(c, capacity, op, now);
    match op
    case RemoveOp(p) =>
      if i < |c| {
        RemoveVisible(c, i, k);
        assert Same(c[Origin(i, k)], d[k]);
      } else {
        assert Same(c[k], d[k]);
      }
    case GetOp(p) => NextOfTouch(c, i, if i < |c| then Some(c[i].lh) else None, now, d, k);
    case PutOp(p, lh) =>
      if i < |c| {
        NextOfTouch(c, i, Some(lh), now, d, k);
      } else {
        PutMakesRoom(c, capacity, p, lh, now);
        if k < |d| - 1 {
          var o := if |c| >= capacity then k + 1 else k;
          assert Same(c[o], d[k]);
        }
      }
  }

  lemma NextOfTouch<V>(c: Cache<V>, i: nat, lh: Option<V>, now: nat, d: Cache<V>, k: nat)
    requires i <= |c| && (i < |c| <==> lh.Some?) && d == (if i < |c| then Touch(c, i, lh.value, now) else c) && k < |d|
    ensures (i < |c| && d[k].path == c[i].path && d[k].stamp == now)
            || ComesFrom(d[k], c)
  {
    if i < |c| {
      TouchVisible(c, i, lh.value, now, k);
      if k < |c| - 1 {
        assert Same(c[Origin(i, k)], d[k]);
      }
    } else {
      assert Same(c[k], d[k]);
    }
  }

  lemma {:induction false} RunUsed<V>(cs: seq<Cache<V>>, ops: seq<Op<V>>, capacity: nat, n: nat)
    requires Trace(cs, ops, capacity) && n <= |ops|
    ensures Used(cs, ops, n)
  {
    if n > 0 {
      RunUsed(cs, ops, capacity, n - 1);
      assert StepAt(cs, ops, capacity, n - 1);
      forall k | 0 <= k < |cs[n]| ensures UsedAt(cs, ops, n, cs[n][k]) {
        NextFrom(cs[n - 1], capacity, ops[n - 1], n - 1, k);
        if ComesFrom(cs[n][k], cs[n - 1]) {
          var o :| 0 <= o < |cs[n - 1]| && Same(cs[n - 1][o], cs[n][k]);
          assert UsedAt(cs, ops, n - 1, cs[n - 1][o]);
        }
      }
    }
  }

  /** List order is order of last use. An entry, even a hidden one, was put or hit at the time it carries,
      and every visible entry behind it belongs to a path that was used later. So the head that an eviction
      removes is the least recently used. */
  lemma OldestFirst<V>(cs: seq<Cache<V>>, ops: seq<Op<V>>, capacity: nat, n: nat, i: nat, j: nat)
    requires Trace(cs, ops, capacity) && n <= |ops| && i < j < |cs[n]| && Visible(cs[n], j)
    ensures UsedAt(cs, ops, n, cs[n][i]) && cs[n][i].stamp + 1 < LastUse(cs, ops, n, cs[n][j].path)
    ensures Visible(cs[n], i) ==> LastUse(cs, ops, n, cs[n][i].path) == cs[n][i].stamp + 1
  {
    RunStamps(cs, ops, capacity, n);
    RunUsed(cs, ops, capacity, n);
    var latest := RunKeeps(cs, ops, capacity, n);
  }

  // ---------- where a removal fails ----------

  lemma PutOne<V>(capacity: nat, p: Word, x: V, now: nat)
    requires capacity >= 2
    ensures Put([], capacity, p, x, now) == [Entry(p, x, true, now)]
  {}

  lemma PutTwo<V>(capacity: nat, e: Entry<V>, q: Word, y: V, now: nat)
    requires capacity >= 2 && e.anchor && Slot(e.path) != Slot(q)
    ensures Put([e], capacity, q, y, now) == [e, Entry(q, y, true, now)]
  {
    assert AnchorFrom([e], Slot(q), 0) == AnchorFrom([e], Slot(q), 1) == 1;
  }

  lemma FindTwo<V>(e: Entry<V>, f: Entry<V>)
    requires e.anchor && f.anchor && Slot(e.path) != Slot(f.path)
    ensures Find([e, f], e.path) == 0 && Find([e, f], f.path) == 1
  {
    var c := [e, f];
    assert AnchorFrom(c, Slot(f.path), 0) == AnchorFrom(c, Slot(f.path), 1) == 1;
    assert AnchorFrom(c, Slot(e.path), 0) == 0;
  }

  /** Two paths of different slots, put one after the other: neither can be removed without harm. */
  lemma TwoSlots<V>(capacity: nat, p: Word, x: V, q: Word, y: V)
    requires capacity >= 2 && Slot(p) != Slot(q)
    ensures var c := [Entry(p, x, true, 0), Entry(q, y, true, 1)];
      && Trace([[], c[..1], c], [PutOp(p, x), PutOp(q, y)], capacity)
      && Find(c, p) == 0 && !Removable(c, 0) && Find(c, q) == 1 && !Removable(c, 1)
  {
    PutOne(capacity, p, x, 0);
    PutTwo(capacity, Entry(p, x, true, 0), q, y, 1);
    FindTwo(Entry(p, x, true, 0), Entry(q, y, true, 1));
    var c := [Entry(p, x, true, 0), Entry(q, y, true, 1)];
    assert c[..1] == [Entry(p, x, true, 0)];
  }

  /** The names a and b are such paths. */
  lemma LettersDiffer()
    ensures Slot(['a']) != Slot(['b'])
  {
    assert Djb2(5381, ['a']) == Djb2(177670, []) && Djb2(5381, ['b']) == Djb2(177671, []);
  }
}
