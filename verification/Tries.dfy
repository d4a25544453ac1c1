/** The trie on the heap: nodes with a 128-slot child array, updated in place. */
module TriesHeap {
  import opened Words
  import opened TrieModel

  /** A list head with its length field; the chain of cells is held as the sequence of its values. */
  class LLHead {
    var currSize: int
    var items: seq<int>

    constructor ()
      ensures currSize == 0 && items == []
    {
      currSize, items := 0, [];
    }

    method InsertFront(val: int)
      modifies this
      ensures items == if old(currSize) == 0 then [val] else [val] + old(items)
      ensures currSize == old(currSize) + 1
    {
      if currSize == 0 {
        items := [val];
        currSize := 1;
      } else {
        items := [val] + items;
        currSize := 1 + currSize;
      }
    }
  }

  method CheckForPortExistance(ll: seq<int>, port: int) returns (absent: bool)
    ensures absent <==> port !in ll
  {
    var i := 0;
    while i < |ll|
      invariant 0 <= i <= |ll| && port !in ll[..i]
    {
      if ll[i] == port {
        return false;
      }
      i := i + 1;
    }
    return true;
  }

  ghost function ArraysOf(arrays: map<array<TrieNode?>, Word>, ws: set<Word>): set<array<TrieNode?>> {
    set a | a in arrays && arrays[a] in ws
  }

  /** A one-letter step enters the words from v on only at v itself. */
  lemma StepInto(v: Word, q: Word, d: Letter, p: Word, c: Letter)
    requires v == p + [c]
    ensures v <= q ==> v <= q + [d]
    ensures v <= q + [d] && !(v <= q) ==> q == p && d == c
  {
    SnocParts(q, d);
    SnocParts(p, c);
  }

  class TrieNode {
    const alpha: array<TrieNode?>
    ghost const at: Word
    var count: int
    var isEnd: bool
    var ports: seq<int>

    constructor (ghost p: Word)
      ensures fresh(alpha) && alpha.Length == 128 && forall i | 0 <= i < 128 :: alpha[i] == null
      ensures at == p && count == 0 && !isEnd && ports == []
    {
      at := p;
      alpha := new TrieNode?[128](_ => null);
      count, isEnd, ports := 0, false, [];
    }
  }

  class Tries {
    var head: TrieNode
    ghost var nodes: map<Word, TrieNode>          // the linked nodes by the word that leads to them
    ghost var arrays: map<array<TrieNode?>, Word> // whose child array it is
    ghost var model: Trie
    ghost var Repr: set<object>

    ghost predicate Owns(p: Word)
      requires p in nodes
      reads `nodes, `arrays, `Repr
    {
      var n := nodes[p];
      && n.at == p && n in Repr
      && n.alpha in Repr && n.alpha.Length == 128 && n.alpha in arrays && arrays[n.alpha] == p
    }

    ghost predicate Linked(p: Word, c: Letter)
      requires p in nodes ==> Owns(p)
      reads `nodes, `arrays, `Repr, arrays.Keys
    {
      if p in nodes then
        && nodes[p].alpha[c as int] == (if p + [c] in nodes then nodes[p + [c]] else null)
        && nodes[p].alpha[0] == null
      else
        p + [c] !in nodes
    }

    /** The pointer structure: no field of it is touched by counting. */
    ghost predicate Shape()
      reads `head, `nodes, `arrays, `Repr, arrays.Keys
    {
      && [] in nodes && nodes[[]] == head
      && (forall p {:trigger Owns(p)} | p in nodes :: Owns(p))
      && (forall p, c {:trigger Linked(p, c)} :: Linked(p, c))
    }

    ghost predicate Matches(p: Word)
      requires p in nodes && p in model && Owns(p)
      reads `nodes, `model, `arrays, `Repr, nodes[p]
    {
      model[p] == Info(nodes[p].count, nodes[p].isEnd, nodes[p].ports)
    }

    ghost predicate Valid()
      reads this, Repr
    {
      && this in Repr && (forall a | a in arrays :: a in Repr) && Shape()
      && model.Keys == nodes.Keys
      && (forall p {:trigger Matches(p)} | p in nodes :: Matches(p))
    }

    constructor ()
      ensures Valid() && fresh(Repr) && model == EMPTY_TRIE
    {
      head := new TrieNode([]);
      new;
      nodes := map[[] := head];
      arrays := map[head.alpha := []];
      model := EMPTY_TRIE;
      Repr := {this, head, head.alpha};
      forall q, c: Letter ensures Linked(q, c) {
        SnocParts(q, c);
      }
    }

    // ---------- in-place steps ----------

    method AddToCount(tp: TrieNode, ghost p: Word, d: int)
      requires Valid() && p in nodes && tp == nodes[p]
      modifies this`model, tp`count
      ensures Valid()
      ensures model == old(model)[p := old(model)[p].(count := old(model)[p].count + d)]
    {
      assert Owns(p) && Matches(p);
      tp.count := tp.count + d;
      model := model[p := model[p].(count := model[p].count + d)];
      forall q | q in nodes ensures Matches(q) {
        assert old(Owns(q) && Matches(q));
      }
    }

    method Attach(tp: TrieNode, ghost p: Word, c: Letter, fr: TrieNode)
      requires Valid() && p in nodes && tp == nodes[p] && p + [c] !in nodes
      requires fr.at == p + [c] && fr.alpha.Length == 128 && forall i | 0 <= i < 128 :: fr.alpha[i] == null
      requires fr.count == 0 && !fr.isEnd && fr.ports == []
      requires fr !in Repr && fr.alpha !in Repr
      modifies this`nodes, this`arrays, this`model, this`Repr, tp.alpha
      ensures Valid() && nodes == old(nodes)[p + [c] := fr] && Repr == old(Repr) + {fr, fr.alpha}
      ensures model == old(model)[p + [c] := EMPTY_INFO]
    {
      ghost var q := p + [c];
      SnocParts(p, c);
      assert Owns(p);
      tp.alpha[c as int] := fr;
      nodes, model := nodes[q := fr], model[q := EMPTY_INFO];
      arrays := arrays[fr.alpha := q];
      Repr := Repr + {fr, fr.alpha};
      forall r | r in nodes ensures Owns(r) && Matches(r) {
        assert r != q ==> old(Owns(r) && Matches(r));
      }
      forall r, d: Letter ensures Linked(r, d) {
        SnocParts(r, d);
        assert old(Linked(r, d));
        if r in old(nodes) {
          assert old(Owns(r)) && (r != p ==> nodes[r].alpha != tp.alpha);
        }
      }
    }

    /** One step down a path, creating the child when its slot is empty. */
    method Descend(tp: TrieNode, ghost p: Word, c: Letter) returns (n: TrieNode)
      requires Valid() && p in nodes && tp == nodes[p]
      modifies this`nodes, this`arrays, this`model, this`Repr, tp.alpha
      ensures Valid() && fresh(Repr - old(Repr)) && old(Repr) <= Repr
      ensures nodes == old(nodes)[p + [c] := n]
      ensures model == if p + [c] in old(model) then old(model) else old(model)[p + [c] := EMPTY_INFO]
    {
      var pos := c as int;
      assert Owns(p) && Linked(p, c);
      if tp.alpha[pos] == null {
        var fr := new TrieNode(p + [c]);
        Attach(tp, p, c, fr);
        assert Linked(p, c);
      }
      n := tp.alpha[pos];
    }

    /** Clear a child slot. When the node is linked, the words ws below the slot are linked no more. */
    method Unhook(tp: TrieNode, c: Letter, ghost p: Word, ghost linked: bool, ghost ws: set<Word>)
      requires Valid() && tp.alpha.Length == 128
      requires if linked then p in nodes && tp == nodes[p] && Below(p + [c], ws) else tp.alpha !in arrays
      modifies this`nodes, this`arrays, this`model, tp.alpha
      ensures Valid()
      ensures !linked ==> nodes == old(nodes) && arrays == old(arrays) && model == old(model)
      ensures linked ==>
        nodes == old(nodes) - ws && model == old(model) - ws && arrays == old(arrays) - ArraysOf(old(arrays), ws)
    {
      tp.alpha[c as int] := null;
      if linked {
        assert old(Owns(p) && Linked(p, c));
        forall q, d: Letter | q != p || d != c ensures Linked(q, d) {
          assert old(Linked(q, d));
          if q in nodes {
            assert old(Owns(q)) && (q != p ==> nodes[q].alpha != tp.alpha);
          }
        }
        forall q | q in nodes ensures Owns(q) && Matches(q) {
          assert old(Owns(q) && Matches(q));
        }
        Prune(p, c, ws);
      }
    }

    /** The words below a slot that was cleared are taken out of the books. */
    ghost method Prune(p: Word, c: Letter, ws: set<Word>)
      requires this in Repr && (forall a | a in arrays :: a in Repr) && model.Keys == nodes.Keys
      requires [] in nodes && nodes[[]] == head && p in nodes && Below(p + [c], ws)
      requires forall q {:trigger Owns(q)} | q in nodes :: Owns(q) && Matches(q)
      requires forall q, d {:trigger Linked(q, d)} :: (q == p && d == c) || Linked(q, d)
      requires nodes[p].alpha.Length == 128 && nodes[p].alpha[c as int] == null && nodes[p].alpha[0] == null
      modifies `nodes, `arrays, `model
      ensures Valid() && nodes == old(nodes) - ws && model == old(model) - ws
      ensures arrays == old(arrays) - ArraysOf(old(arrays), ws)
    {
      arrays := arrays - ArraysOf(arrays, ws);
      nodes, model := nodes - ws, model - ws;
      forall q | q in nodes ensures Owns(q) && Matches(q) {
        assert old(Owns(q) && Matches(q));
      }
      forall q, d: Letter ensures Linked(q, d) {
        assert q != p || d != c ==> old(Linked(q, d));
        StepInto(p + [c], q, d, p, c);
      }
    }

    /** free() of a node that is not linked: nobody may touch it or its child array any more. */
    ghost method Free(tp: TrieNode)
      requires Valid() && tp.alpha !in arrays && (tp.at in nodes ==> nodes[tp.at] != tp)
      modifies this`Repr
      ensures Valid() && Repr == old(Repr) - {tp, tp.alpha}
    {
      Repr := Repr - {tp, tp.alpha};
      forall q | q in nodes ensures Owns(q) && Matches(q) {
        assert old(Owns(q) && Matches(q));
      }
      forall q, c ensures Linked(q, c) {
        assert old(Linked(q, c));
      }
    }

    ghost predicate Below(v: Word, ws: set<Word>)
      reads `nodes
    {
      ws <= nodes.Keys && forall q | q in nodes :: v <= q <==> q in ws
    }

    method SetEnd(tp: TrieNode, ghost p: Word, b: bool)
      requires Valid() && p in nodes && tp == nodes[p]
      modifies this`model, tp`isEnd
      ensures Valid()
      ensures model == old(model)[p := old(model)[p].(isEnd := b)]
    {
      assert Owns(p) && Matches(p);
      tp.isEnd := b;
      model := model[p := model[p].(isEnd := b)];
      forall q | q in nodes ensures Matches(q) {
        assert old(Owns(q) && Matches(q));
      }
    }

    method SetPorts(tp: TrieNode, ghost p: Word, ports: seq<int>)
      requires Valid() && p in nodes && tp == nodes[p]
      modifies this`model, tp`ports
      ensures Valid()
      ensures model == old(model)[p := old(model)[p].(ports := ports)]
    {
      assert Owns(p) && Matches(p);
      tp.ports := ports;
      model := model[p := model[p].(ports := ports)];
      forall q | q in nodes ensures Matches(q) {
        assert old(Owns(q) && Matches(q));
      }
    }
  }

  /** The guarded insertfront that insertTries3 makes for each of its ports. */
  method AddIfAbsent(thp: Tries, tp: TrieNode, ghost p: Word, port: int)
    requires thp.Valid() && p in thp.nodes && tp == thp.nodes[p]
    modifies thp`model, tp`ports
    ensures thp.Valid()
    ensures thp.model == old(thp.model)[p := old(thp.model)[p].(ports := AddPort(old(thp.model)[p].ports, port))]
  {
    assert thp.Owns(p) && thp.Matches(p);
    var absent := CheckForPortExistance(tp.ports, port);
    if absent {
      thp.SetPorts(tp, p, [port] + tp.ports);
    }
  }

  method InsertTries3(thp: Tries, val: Word, ss1: int, ss2: int, ss3: int)
    requires thp.Valid()
    modifies thp.Repr
    ensures thp.Valid() && fresh(thp.Repr - old(thp.Repr))
    ensures thp.model == Insert(old(thp.model), val, ss1, ss2, ss3)
  {
    var tp := CountPath(thp, val);
    WalkedEnd(old(thp.model), val, ss1, ss2, ss3);
    assert thp.Owns(val);
    Mark(thp, tp, val, ss1, ss2, ss3);
  }

  method Mark(thp: Tries, tp: TrieNode, ghost p: Word, ss1: int, ss2: int, ss3: int)
    requires thp.Valid() && p in thp.nodes && tp == thp.nodes[p]
    modifies thp`model, tp`isEnd, tp`ports
    ensures thp.Valid()
    ensures thp.model == Marked(old(thp.model), p, ss1, ss2, ss3)
  {
    thp.SetEnd(tp, p, true);
    AddIfAbsent(thp, tp, p, ss1);
    AddIfAbsent(thp, tp, p, ss2);
    AddIfAbsent(thp, tp, p, ss3);
  }

  /** The loop of insertTries3. */
  method CountPath(thp: Tries, val: Word) returns (tp: TrieNode)
    requires thp.Valid()
    modifies thp.Repr
    ensures thp.Valid() && fresh(thp.Repr - old(thp.Repr))
    ensures val in thp.nodes && tp == thp.nodes[val]
    ensures thp.model == Walked(old(thp.model), val, |val| + 1)
  {
    ghost var t := thp.model;
    tp := thp.head;
    var length := |val|;
    for i := 0 to length + 1
      invariant thp.Valid() && fresh(thp.Repr - old(thp.Repr))
      invariant Stop(val, i) in thp.nodes && tp == thp.nodes[Stop(val, i)]
      invariant thp.model == Walked(t, val, i)
    {
      assert thp.Owns(Stop(val, i));
      tp := CountOne(thp, tp, val, i);
    }
    assert Stop(val, length + 1) == val;
  }

  /** Its body: count the node, then step down unless the word has ended. */
  method CountOne(thp: Tries, tp: TrieNode, val: Word, i: nat) returns (n: TrieNode)
    requires thp.Valid() && i <= |val|
    requires Stop(val, i) in thp.nodes && tp == thp.nodes[Stop(val, i)]
    modifies thp, tp, tp.alpha
    ensures thp.Valid() && fresh(thp.Repr - old(thp.Repr))
    ensures Stop(val, i + 1) in thp.nodes && n == thp.nodes[Stop(val, i + 1)]
    ensures thp.model == Round(old(thp.model), Stop(val, i), Stop(val, i + 1))
  {
    thp.AddToCount(tp, val[..i], 1);
    if i != |val| {
      assert val[..i] + [val[i]] == val[..i + 1];
      n := thp.Descend(tp, val[..i], val[i]);
    } else {
      assert val[..i] == val;
      n := tp;
    }
  }

  // ---------- DeleteNode ----------

  /** The nodes and child arrays at the words ws. */
  ghost function Cells(nodes: map<Word, TrieNode>, ws: set<Word>): set<object> {
    (set q | q in ws && q in nodes :: nodes[q]) + (set q | q in ws && q in nodes :: nodes[q].alpha)
  }

  /** Delete a linked word: count down along its path, clear its mark, then walk the path again and
      unlink and free the nodes whose count is now zero. What hangs on an unlinked node comes off with it,
      but only the path is freed; when the word is outstanding nothing else hangs there. */
  method DeleteNode(thp: Tries, val: Word, ghost m: Bag)
    requires thp.Valid() && Counts(thp.model, m) && val in thp.model
    modifies thp.Repr
    ensures thp.Valid() && thp.model == DeleteLinked(old(thp.model), val)
    ensures thp.nodes == old(thp.nodes) - (old(thp.model).Keys - thp.model.Keys)
    ensures thp.Repr == old(thp.Repr) - Cells(old(thp.nodes), Zeros(old(thp.model), val))
    ensures val in m ==> thp.model == Delete(old(thp.model), val) && Counts(thp.model, m - multiset{val})
    ensures val in m ==> thp.Repr == old(thp.Repr) - Cells(old(thp.nodes), old(thp.model).Keys - thp.model.Keys)
  {
    ghost var t := thp.model;
    ghost var z := DeleteWalks(t, m, val);
    if val in m {
      DeleteCounts(t, m, val);
      DeleteOutstanding(t, m, val);
    }
    CountDown(thp, val);
    UnlinkPath(thp, val, z);
  }

  /** The first walk of DeleteNode, and the mark that it clears at its end. */
  method CountDown(thp: Tries, val: Word)
    requires thp.Valid() && forall p | p <= val :: p in thp.model
    modifies thp.Repr
    ensures thp.Valid() && thp.nodes == old(thp.nodes) && thp.Repr == old(thp.Repr)
    ensures thp.model == Unmarked(Uncounted(old(thp.model), val, |val| + 1), val)
  {
    var tp := UncountPath(thp, val);
    assert thp.Owns(val);
    thp.SetEnd(tp, val, false);
  }

  method UncountPath(thp: Tries, val: Word) returns (tp: TrieNode)
    requires thp.Valid() && forall p | p <= val :: p in thp.model
    modifies thp.Repr
    ensures thp.Valid() && thp.nodes == old(thp.nodes) && thp.Repr == old(thp.Repr)
    ensures val in thp.nodes && tp == thp.nodes[val]
    ensures thp.model == Uncounted(old(thp.model), val, |val| + 1)
  {
    ghost var t := thp.model;
    tp := thp.head;
    var length := |val|;
    for i := 0 to length + 1
      invariant thp.Valid() && thp.nodes == old(thp.nodes) && thp.Repr == old(thp.Repr)
      invariant Stop(val, i) in thp.nodes && tp == thp.nodes[Stop(val, i)]
      invariant thp.model == Uncounted(t, val, i)
    {
      assert thp.Owns(Stop(val, i));
      assert Stop(val, i + 1) <= val;
      tp := UncountOne(thp, tp, val, i);
    }
    assert Stop(val, length + 1) == val;
  }

  method UncountOne(thp: Tries, tp: TrieNode, val: Word, i: nat) returns (n: TrieNode)
    requires thp.Valid() && i <= |val|
    requires Stop(val, i) in thp.nodes && tp == thp.nodes[Stop(val, i)]
    requires Stop(val, i + 1) in thp.nodes
    modifies thp`model, tp`count
    ensures thp.Valid()
    ensures n == thp.nodes[Stop(val, i + 1)]
    ensures thp.model ==
      old(thp.model)[Stop(val, i) :=
        At(old(thp.model), Stop(val, i)).(count := At(old(thp.model), Stop(val, i)).count - 1)]
  {
    thp.AddToCount(tp, val[..i], -1);
    if i != |val| {
      assert val[..i] + [val[i]] == val[..i + 1];
      assert thp.Owns(val[..i]) && thp.Linked(val[..i], val[i]);
      n := tp.alpha[val[i] as int];
    } else {
      assert val[..i] == val;
      n := tp;
    }
  }

  /** What the unlinking walk started from. */
  datatype Start = Start(
    nodes: map<Word, TrieNode>, arrays: map<array<TrieNode?>, Word>, model: Trie, boxes: set<object>)

  /** A path node the walk has not passed yet: allocated, counted zero exactly from length z on, and
      leading to the next path node whether it is still linked or not. */
  ghost predicate PathCell(thp: Tries, s: Start, val: Word, z: nat, j: nat)
    reads thp`Repr, thp`head
    reads if j <= |val| && val[..j] in s.nodes then {s.nodes[val[..j]], s.nodes[val[..j]].alpha} else {}
  {
    && j <= |val| && val[..j] in s.nodes
    && var n := s.nodes[val[..j]];
    && n in thp.Repr && n.alpha in thp.Repr && n.at == val[..j]
    && n.alpha in s.arrays && s.arrays[n.alpha] == val[..j] && n.alpha.Length == 128
    && (j == 0 <==> n == thp.head) && (1 <= j ==> (n.count == 0 <==> z <= j))
    && (j < |val| ==> val[..j + 1] in s.nodes && n.alpha[val[j] as int] == s.nodes[val[..j + 1]])
  }

  /** The state of the unlinking walk when i rounds have unlinked and f rounds have freed. */
  ghost predicate Unlinking(thp: Tries, s: Start, val: Word, z: nat, i: nat, f: nat)
    reads thp, thp.Repr, s.nodes.Values, set p | p in s.nodes :: s.nodes[p].alpha
  {
    && thp.Valid()
    && thp.Repr == s.boxes - Cells(s.nodes, Gone(val, z, f))
    && (if i < z then thp.nodes == s.nodes && thp.model == s.model && thp.arrays == s.arrays
        else
          var ws := CutAt(s.model, val, z);
          thp.nodes == s.nodes - ws && thp.model == s.model - ws && thp.arrays == s.arrays - ArraysOf(s.arrays, ws))
    && forall j {:trigger PathCell(thp, s, val, z, j)} | i <= j <= |val| :: PathCell(thp, s, val, z, j)
  }

  method UnlinkPath(thp: Tries, val: Word, ghost z: nat)
    requires thp.Valid() && ZeroFrom(thp.model, val, z)
    modifies thp.Repr
    ensures thp.Valid() && thp.model == old(thp.model) - CutAt(old(thp.model), val, z)
    ensures thp.nodes == old(thp.nodes) - CutAt(old(thp.model), val, z)
    ensures thp.Repr == old(thp.Repr) - Cells(old(thp.nodes), Gone(val, z, |val| + 1))
  {
    ghost var s := Start(thp.nodes, thp.arrays, thp.model, thp.Repr);
    UnlinkingStarts(thp, s, val, z);
    var tp := thp.head;
    var length := |val|;
    for i := 0 to length + 1
      invariant Unlinking(thp, s, val, z, i, i)
      invariant i <= length ==> val[..i] in s.nodes && tp == s.nodes[val[..i]]
    {
      assert PathCell(thp, s, val, z, i);
      tp := UnlinkOne(thp, tp, val, i, z, s);
    }
  }

  lemma UnlinkingStarts(thp: Tries, s: Start, val: Word, z: nat)
    requires thp.Valid() && ZeroFrom(thp.model, val, z)
    requires s == Start(thp.nodes, thp.arrays, thp.model, thp.Repr)
    ensures Unlinking(thp, s, val, z, 0, 0)
  {
    forall j | 0 <= j <= |val| ensures PathCell(thp, s, val, z, j) {
      assert j == 0 ==> val[..j] == [];
      assert thp.Owns([]) && thp.Owns(val[..j]) && thp.Matches(val[..j]);
      if j < |val| {
        assert val[..j] + [val[j]] == val[..j + 1];
        assert thp.Linked(val[..j], val[j]);
      }
    }
  }

  method UnlinkOne(thp: Tries, T: TrieNode, val: Word, i: nat, ghost z: nat, ghost s: Start) returns (tp: TrieNode)
    requires ZeroFrom(s.model, val, z) && i <= |val|
    requires Unlinking(thp, s, val, z, i, i)
    requires val[..i] in s.nodes && T == s.nodes[val[..i]]
    modifies thp, T.alpha
    ensures Unlinking(thp, s, val, z, i + 1, i + 1)
    ensures i < |val| ==> val[..i + 1] in s.nodes && tp == s.nodes[val[..i + 1]]
  {
    assert PathCell(thp, s, val, z, i);
    tp := T;
    if i != |val| {
      tp := T.alpha[val[i] as int];
      assert PathCell(thp, s, val, z, i + 1);
      if tp.count == 0 {
        Sever(thp, T, val, i, z, s);
      }
    }
    ghost var cut := i != |val| && z <= i + 1;
    if !cut {
      NoCut(thp, s, val, z, i);
    }
    if T.count == 0 && T != thp.head {
      Release(thp, T, val, i, z, s);
    } else {
      NothingGone(val, z, i);
    }
  }

  lemma NothingGone(w: Word, z: nat, i: nat)
    requires i < z
    ensures Gone(w, z, i + 1) == Gone(w, z, i) == {}
  {}

  lemma NoCut(thp: Tries, s: Start, val: Word, z: nat, i: nat)
    requires i <= |val| && (i == |val| || i + 1 < z) && z <= |val| + 1
    requires Unlinking(thp, s, val, z, i, i)
    ensures Unlinking(thp, s, val, z, i + 1, i)
  {
    if i < z {
      NothingGone(val, z, i);
    }
  }

  /** Clear the child slot that leads to the next path node, whether this node is still linked or not. */
  method Sever(thp: Tries, T: TrieNode, val: Word, i: nat, ghost z: nat, ghost s: Start)
    requires ZeroFrom(s.model, val, z) && i < |val| && z <= i + 1
    requires Unlinking(thp, s, val, z, i, i)
    requires val[..i] in s.nodes && T == s.nodes[val[..i]]
    modifies thp`nodes, thp`arrays, thp`model, T.alpha
    ensures Unlinking(thp, s, val, z, i + 1, i)
  {
    assert PathCell(thp, s, val, z, i);
    assert val[..i] + [val[i]] == val[..i + 1];
    thp.Unhook(T, val[i], val[..i], i < z, CutAt(s.model, val, z));
    forall j | i + 1 <= j <= |val| ensures PathCell(thp, s, val, z, j) {
      assert old(PathCell(thp, s, val, z, j));
    }
  }

  /** Free a path node counted zero together with its child array. */
  ghost method Release(thp: Tries, T: TrieNode, val: Word, i: nat, z: nat, s: Start)
    requires 1 <= z <= i <= |val| && ZeroFrom(s.model, val, z)
    requires Unlinking(thp, s, val, z, i + 1, i)
    requires val[..i] in s.nodes && T == s.nodes[val[..i]]
    requires T.at == val[..i] && T.alpha in s.arrays && s.arrays[T.alpha] == val[..i]
    modifies thp`Repr
    ensures Unlinking(thp, s, val, z, i + 1, i + 1)
  {
    assert val[..i] in CutAt(s.model, val, z);
    thp.Free(T);
    GoneGrows(val, z, i);
    CellsGrow(s.nodes, Gone(val, z, i), val[..i]);
    forall j | i + 1 <= j <= |val| ensures PathCell(thp, s, val, z, j) {
      assert old(PathCell(thp, s, val, z, j));
    }
  }

  lemma GoneGrows(w: Word, z: nat, i: nat)
    requires z <= i <= |w|
    ensures Gone(w, z, i + 1) == Gone(w, z, i) + {w[..i]}
  {}

  lemma CellsGrow(nodes: map<Word, TrieNode>, ws: set<Word>, v: Word)
    requires v in nodes
    ensures Cells(nodes, ws + {v}) == Cells(nodes, ws) + {nodes[v], nodes[v].alpha}
  {}
}
