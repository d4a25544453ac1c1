/** The cache on the heap: a doubly linked recency list whose next pointers double as hash chains. */
module LruHeap {
  import opened Words
  import opened LruModel
  import opened TriesHeap

  class CacheNode {
    const filePath: Word
    var lh: LLHead
    var prev: CacheNode?
    var next: CacheNode?
    ghost var stamp: nat

    constructor (filePath: Word, lh: LLHead)
      ensures this.filePath == filePath && this.lh == lh && prev == null && next == null
    {
      this.filePath, this.lh := filePath, lh;
      prev, next := null, null;
    }
  }

  class LRUCache {
    const capacity: nat
    var size: nat
    var head: CacheNode?
    var tail: CacheNode?
    const hashMap: array<CacheNode?>
    ghost var list: seq<CacheNode>    // the recency list, oldest first
    ghost var incoming: CacheNode?    // a node that is not, or not yet again, in the list
    ghost var now: nat
    ghost var model: Cache<LLHead>
    ghost var Repr: set<object>

    ghost predicate Owns(i: nat)
      reads `list, `Repr, `incoming, `now, list`stamp
    {
      i < |list| && list[i] in Repr && list[i] != incoming && list[i].stamp < now
    }

    /** The stamps tell the nodes apart. */
    ghost predicate Older(i: nat, j: nat)
      requires i < j < |list|
      reads `list, list`stamp
    {
      list[i].stamp < list[j].stamp
    }

    /** The entry of node k, as its slot has it. */
    ghost function AtSlot(k: nat): Entry<LLHead>
      requires k < |list| && hashMap.Length == 31
      reads `list, hashMap, list`lh, list`stamp
    {
      Entry(list[k].filePath, list[k].lh, hashMap[Slot(list[k].filePath)] == list[k], list[k].stamp)
    }

    ghost predicate Matches(i: nat)
      requires i < |list| && i < |model| && hashMap.Length == 31
      reads `list, `model, hashMap, list`lh, list`stamp
    {
      model[i] == AtSlot(i)
    }

    /** A hash slot is empty or points at a node of its own slot that is in the list (or on its way). */
    ghost predicate SlotOk(h: nat)
      requires h < 31 && hashMap.Length == 31
      reads `list, `incoming, hashMap
    {
      var n := hashMap[h];
      n == null || (Slot(n.filePath) == h && (n in list || n == incoming))
    }

    /** Everything but the links. */
    ghost predicate Data()
      reads `list, `model, `incoming, `now, `Repr, hashMap, list`lh, list`stamp
    {
      && this in Repr && hashMap in Repr && hashMap.Length == 31 && |model| == |list|
      && (forall i {:trigger Owns(i)} | 0 <= i < |list| :: Owns(i))
      && (forall i, j {:trigger Older(i, j)} | 0 <= i < j < |list| :: Older(i, j))
      && (forall i {:trigger Matches(i)} | 0 <= i < |list| :: Matches(i))
      && (forall h {:trigger SlotOk(h)} | 0 <= h < 31 :: SlotOk(h))
    }

    /** Node i of s has the right neighbours; the last one may already lead to the incoming node. */
    ghost predicate Link(s: seq<CacheNode>, i: nat)
      requires i < |s|
      reads `incoming, s`prev, s`next
    {
      && s[i].prev == (if i == 0 then null else s[i - 1])
      && (if i + 1 < |s| then s[i].next == s[i + 1] else s[i].next == null || s[i].next == incoming)
    }

    ghost predicate Chain(s: seq<CacheNode>)
      reads `head, `tail, `incoming, s`prev, s`next
    {
      && (forall i {:trigger Link(s, i)} | 0 <= i < |s| :: Link(s, i))
      && head == (if s == [] then null else s[0])
      && tail == (if s == [] then null else s[|s| - 1])
    }

    ghost predicate Valid()
      reads this, Repr, hashMap, list
    {
      Data() && Chain(list)
    }

    /** Between two calls: nobody is on the way, and size is the length of the list. */
    ghost predicate Ready()
      reads this, Repr, hashMap, list
    {
      Valid() && incoming == null && size == |list| <= capacity
    }

    constructor (capacity: nat)
      ensures Ready() && fresh(Repr) && this.capacity == capacity && model == [] && now == 0
    {
      this.capacity := capacity;
      size, head, tail := 0, null, null;
      hashMap := new CacheNode?[31](_ => null);
      list, incoming, now, model := [], null, 0, [];
      new;
      Repr := {this, hashMap};
    }

    // ---------- unlinking and appending ----------

    lemma NodesOwned()
      requires Data()
      ensures forall n | n in list :: n in Repr
    {
      forall i | 0 <= i < |list| ensures list[i] in Repr {
        assert Owns(i);
      }
    }

    lemma Distinct(i: nat, j: nat)
      requires Data() && i < |list| && j < |list|
      ensures list[i] == list[j] <==> i == j
    {
      if i < j { assert Older(i, j); } else if j < i { assert Older(j, i); }
    }

    /** removeFromCache */
    method RemoveFromCache(node: CacheNode, ghost i: nat)
      requires Data() && Chain(list) && incoming == null && i < |list| && list[i] == node
      modifies `head, `tail, list`prev, list`next
      ensures Chain(Drop(list, i))
      ensures node.prev == old(node.prev) && node.next == old(node.next)
    {
      assert Link(list, i);
      forall o | 0 <= o < |list|
        ensures list[o] == node <==> o == i
        ensures i > 0 ==> (list[o] == list[i - 1] <==> o == i - 1)
        ensures i + 1 < |list| ==> (list[o] == list[i + 1] <==> o == i + 1)
      {
        Distinct(o, i);
        if i > 0 { Distinct(o, i - 1); }
        if i + 1 < |list| { Distinct(o, i + 1); }
      }
      if node.prev != null {
        node.prev.next := node.next;
      } else {
        head := node.next;
      }
      if node.next != null {
        node.next.prev := node.prev;
      } else {
        tail := node.prev;
      }
      ghost var s := Drop(list, i);
      forall k | 0 <= k < |s| ensures Link(s, k) {
        ghost var o := Origin(i, k);
        assert old(Link(list, o));
        assert s[k] == list[o];
      }
    }

    /** The list without the node that is on its way back. */
    ghost method Leave(i: nat)
      requires Data() && incoming == null && i < |list| && Chain(Drop(list, i))
      modifies `list, `incoming, `model
      ensures Valid() && list == Drop(old(list), i) && model == Drop(old(model), i)
      ensures incoming == old(list)[i] && incoming !in list
      ensures list != [] ==> list[|list| - 1].next == null
    {
      ghost var s, m := list, model;
      forall o | 0 <= o < |s| && o != i ensures s[o] != s[i] {
        Distinct(o, i);
      }
      list, model, incoming := Drop(s, i), Drop(m, i), s[i];
      forall k | 0 <= k < |list| ensures Owns(k) && Matches(k) {
        ghost var o := Origin(i, k);
        assert old(Owns(o) && Matches(o));
        assert list[k] == s[o];
      }
      forall k, l | 0 <= k < l < |list| ensures Older(k, l) {
        assert old(Older(Origin(i, k), Origin(i, l)));
      }
      forall h | 0 <= h < 31 ensures SlotOk(h) {
        assert old(SlotOk(h));
      }
      forall k | 0 <= k < |list| ensures Link(list, k) {
        assert old(Link(Drop(s, i), k));
      }
      if list != [] { assert old(Link(Drop(s, i), |Drop(s, i)| - 1)); }
    }

    /** addToCache */
    method AddToCache(node: CacheNode)
      requires Data() && Chain(list) && node !in list && incoming == node
      modifies `head, `tail, list`next, node`prev, node`next
      ensures Data() && Chain(list + [node]) && node.next == null
    {
      ghost var s := list + [node];
      if list != [] { assert Link(list, |list| - 1); }
      forall k | 0 <= k < |list| - 1 ensures list[k] != list[|list| - 1] {
        Distinct(k, |list| - 1);
      }
      if tail != null {
        tail.next := node;
      }
      node.prev := tail;
      node.next := null;
      tail := node;
      if head == null {
        head := node;
      }
      forall k | 0 <= k < |s| ensures Link(s, k) {
        if k < |list| { assert old(Link(list, k)); }
      }
    }

    /** The incoming node is the newest of the list; its use ends the current moment. */
    ghost method Join(node: CacheNode)
      requires Data() && Chain(list + [node]) && incoming == node && node !in list && node.next == null
      modifies `list, `incoming, `model, `Repr, `now, node`stamp
      ensures Valid() && list == old(list) + [node] && incoming == null && Repr == old(Repr) + {node}
      ensures now == old(now) + 1
      ensures model == old(model) + [Entry(node.filePath, node.lh, hashMap[Slot(node.filePath)] == node, old(now))]
    {
      ghost var s := list;
      node.stamp := now;
      model := model + [Entry(node.filePath, node.lh, hashMap[Slot(node.filePath)] == node, now)];
      list, incoming, now, Repr := s + [node], null, now + 1, Repr + {node};
      forall k | 0 <= k < |list| ensures Owns(k) && Matches(k) {
        if k < |s| { assert old(Owns(k) && Matches(k)); }
      }
      forall k, l | 0 <= k < l < |list| ensures Older(k, l) {
        if l < |s| { assert old(Older(k, l)); } else { assert old(Owns(k)); }
      }
      forall h | 0 <= h < 31 ensures SlotOk(h) {
        assert old(SlotOk(h));
      }
      forall k | 0 <= k < |list| ensures Link(list, k) {
        assert old(Link(s + [node], k));
      }
    }

    // ---------- lookup ----------

    lemma AnchorIs(h: nat)
      requires Data() && incoming == null && h < 31
      ensures hashMap[h] == null <==> AnchorFrom(model, h, 0) == |list|
      ensures hashMap[h] != null ==> AnchorFrom(model, h, 0) < |list| && list[AnchorFrom(model, h, 0)] == hashMap[h]
    {
      assert SlotOk(h);
      if hashMap[h] != null {
        var k :| 0 <= k < |list| && list[k] == hashMap[h];
        assert Matches(k);
      }
      var a := AnchorFrom(model, h, 0);
      if a < |list| {
        assert Matches(a);
      }
    }

    /** The walk that get, put and removeForDelete share: from the slot's node along the recency links. */
    method Lookup(filePath: Word) returns (node: CacheNode?, prev: CacheNode?, ghost i: nat)
      requires Valid() && incoming == null
      ensures i == Find(model, filePath) <= |list|
      ensures node != null <==> Find(model, filePath) < |model|
      ensures node != null ==> node == list[Find(model, filePath)] && node.filePath == filePath
      ensures i < |list| ==> node == list[i]
      ensures i == |list| ==> node == null && (prev == null <==> hashMap[Slot(filePath)] == null)
      ensures i == |list| && prev != null ==> list != [] && prev == list[|list| - 1]
    {
      var hash := Slot(filePath);
      AnchorIs(hash);
      node := hashMap[hash];
      prev := node;
      i := AnchorFrom(model, hash, 0);
      while node != null
        invariant i <= |list| && (node == null <==> i == |list|) && (i < |list| ==> node == list[i])
        invariant Find(model, filePath) == PathFrom(model, filePath, i)
        invariant prev == null <==> hashMap[hash] == null
        invariant prev != null && i == |list| ==> list != [] && prev == list[|list| - 1]
        decreases |list| - i
      {
        assert Matches(i) && Link(list, i);
        if node.filePath == filePath {
          return;
        }
        prev := node;
        node := node.next;
        i := i + 1;
      }
    }

    // ---------- get ----------

    /** The node is the newest already. */
    ghost method Renew(node: CacheNode)
      requires Valid() && incoming == null && list != [] && list[|list| - 1] == node
      modifies `model, `now, node`stamp
      ensures Valid() && now == old(now) + 1
      ensures model == old(model)[|list| - 1 := old(model)[|list| - 1].(stamp := old(now))]
    {
      ghost var last := |list| - 1;
      forall k | 0 <= k < last ensures list[k] != node {
        Distinct(k, last);
      }
      node.stamp := now;
      model := model[last := model[last].(stamp := now)];
      now := now + 1;
      forall k | 0 <= k < |list| ensures Owns(k) && Matches(k) {
        assert old(Owns(k) && Matches(k));
      }
      forall k, l | 0 <= k < l < |list| ensures Older(k, l) {
        assert old(Older(k, l)) && old(Owns(k));
      }
    }

    /** removeFromCache and addToCache, unless the node is the tail. */
    method MoveToEnd(node: CacheNode, ghost i: nat)
      requires Valid() && incoming == null && i < |list| && list[i] == node
      modifies `head, `tail, `list, `incoming, `model, `now, `Repr, list`prev, list`next, node`stamp
      ensures Valid() && incoming == null && |list| == old(|list|) && now == old(now) + 1 && Repr == old(Repr)
      ensures model == Touch(old(model), i, old(model)[i].lh, old(now))
    {
      assert Owns(i) && Matches(i);
      Distinct(i, |list| - 1);
      if node != tail {
        RemoveFromCache(node, i);
        Leave(i);
        AddToCache(node);
        Join(node);
      } else {
        Renew(node);
      }
    }

    method Get(filePath: Word) returns (lh: LLHead?)
      requires Ready()
      modifies `head, `tail, `list, `incoming, `model, `now, `Repr, list`prev, list`next, list`stamp
      ensures Ready() && now == old(now) + 1 && Repr == old(Repr)
      ensures model == LruModel.Get(old(model), filePath, old(now))
      ensures match GetResult(old(model), filePath) case Some(v) => lh == v case None => lh == null
    {
      var node, prev, i := Lookup(filePath);
      if node != null {
        assert Matches(i);
        lh := node.lh;
        MoveToEnd(node, i);
        return;
      }
      Tick();
      return null;
    }

    /** A moment passes. */
    ghost method Tick()
      requires Ready()
      modifies `now
      ensures Ready() && now == old(now) + 1
    {
      now := now + 1;
      forall k | 0 <= k < |list| ensures Owns(k) {
        assert old(Owns(k));
      }
    }

    // ---------- eviction ----------

    /** The pointer part of evictLRUNode; the tail is not repaired, so the list must have two nodes. */
    method CutHead(temp: CacheNode)
      requires Data() && Chain(list) && |list| >= 2 && temp == list[0]
      modifies `head, list`prev
      ensures Data() && Chain(list[1..])
    {
      assert Link(list, 0) && Link(list, 1);
      forall k | 0 <= k < |list| && k != 1 ensures list[k] != list[1] {
        Distinct(k, 1);
      }
      head := temp.next;
      if head != null {
        head.prev := null;
      }
      forall k | 0 <= k < |list[1..]| ensures Link(list[1..], k) {
        assert old(Link(list, k + 1));
      }
    }

    method ClearSlot(h: nat)
      requires Data() && h < 31
      modifies hashMap, `model
      ensures Data() && hashMap[h] == null && model == UnanchorAll(old(model), h)
      ensures forall k | 0 <= k < 31 && k != h :: hashMap[k] == old(hashMap[k])
    {
      hashMap[h] := null;
      model := UnanchorAll(model, h);
      forall k | 0 <= k < |list| ensures Owns(k) && Matches(k) {
        assert old(Owns(k) && Matches(k));
      }
      forall k, l | 0 <= k < l < |list| ensures Older(k, l) {
        assert old(Older(k, l));
      }
      forall k | 0 <= k < 31 ensures SlotOk(k) {
        assert old(SlotOk(k));
      }
    }

    /** free() of the node that was the head. */
    ghost method ForgetHead()
      requires Data() && list != [] && Chain(list[1..]) && hashMap[Slot(list[0].filePath)] == null
      modifies `list, `model, `Repr
      ensures Valid() && list == old(list)[1..] && model == old(model)[1..] && Repr == old(Repr) - {old(list)[0]}
    {
      ghost var s := list;
      forall k | 0 < k < |s| ensures s[k] != s[0] {
        Distinct(k, 0);
      }
      list, model, Repr := s[1..], model[1..], Repr - {s[0]};
      forall k | 0 <= k < |list| ensures Owns(k) && Matches(k) {
        assert old(Owns(k + 1) && Matches(k + 1));
      }
      forall k, l | 0 <= k < l < |list| ensures Older(k, l) {
        assert old(Older(k + 1, l + 1));
      }
      forall h | 0 <= h < 31 ensures SlotOk(h) {
        assert old(SlotOk(h));
      }
      forall k | 0 <= k < |list| ensures Link(list, k) {
        assert old(Link(s[1..], k));
      }
    }

    method EvictLRUNode()
      requires Valid() && |list| >= 2
      modifies `head, `list, `model, `Repr, list`prev, hashMap
      ensures Valid() && list == old(list)[1..] && Repr == old(Repr) - {old(list)[0]}
      ensures model == UnanchorAll(old(model), Slot(old(list)[0].filePath))[1..]
      ensures forall k | 0 <= k < 31 :: hashMap[k] == if k == Slot(old(list)[0].filePath) then null else old(hashMap[k])
    {
      var temp := head;
      CutHead(temp);
      var hash := Slot(temp.filePath);
      ClearSlot(hash);
      ForgetHead();
    }

    // ---------- put ----------

    /** A path that is put again gets its new list. */
    method SetList(node: CacheNode, ghost i: nat, lh: LLHead)
      requires Valid() && incoming == null && i < |list| && list[i] == node
      modifies `model, node`lh
      ensures Valid() && model == old(model)[i := old(model)[i].(lh := lh)]
    {
      forall k | 0 <= k < |list| && k != i ensures list[k] != node {
        Distinct(k, i);
      }
      node.lh := lh;
      model := model[i := model[i].(lh := lh)];
      forall k | 0 <= k < |list| ensures Matches(k) {
        assert old(Matches(k));
      }
    }

    /** A new node is hung into its empty slot, or behind the last node of the walk. */
    method Announce(newNode: CacheNode, prev: CacheNode?)
      requires Valid() && incoming == null && newNode !in Repr
      requires prev == null <==> hashMap[Slot(newNode.filePath)] == null
      requires prev != null ==> list != [] && prev == list[|list| - 1]
      modifies `incoming, hashMap, list`next
      ensures Valid() && incoming == newNode && newNode !in list
      ensures forall k | 0 <= k < 31 ::
        hashMap[k] == if k == Slot(newNode.filePath) && prev == null then newNode else old(hashMap[k])
    {
      var hash := Slot(newNode.filePath);
      forall k | 0 <= k < |list| ensures list[k] != newNode {
        assert Owns(k);
      }
      if list != [] {
        forall k | 0 <= k < |list| - 1 ensures list[k] != list[|list| - 1] {
          Distinct(k, |list| - 1);
        }
      }
      incoming := newNode;
      if prev == null {
        hashMap[hash] := newNode;
      } else {
        prev.next := newNode;
      }
      forall k | 0 <= k < |list| ensures Owns(k) && Matches(k) && Link(list, k) {
        assert old(Owns(k) && Matches(k) && Link(list, k));
      }
      forall h | 0 <= h < 31 ensures SlotOk(h) {
        assert old(SlotOk(h));
      }
    }

    method MakeRoom()
      requires Valid() && size == |list| <= capacity && capacity >= 2
      modifies `head, `list, `model, `Repr, `size, list`prev, hashMap
      ensures Valid() && size == |list| < capacity && Repr <= old(Repr) && incoming == old(incoming)
      ensures list == old(list) || (old(list) != [] && list == old(list)[1..])
      ensures model == Room(old(model), capacity)
      ensures forall k | 0 <= k < 31 ::
        hashMap[k] == if old(|model|) >= capacity && k == Slot(old(model)[0].path) then null else old(hashMap[k])
    {
      if size >= capacity {
        assert Matches(0);
        EvictLRUNode();
        size := size - 1;
      }
    }

    /** The end of put for a path that the walk did not find. */
    method PutNew(newNode: CacheNode, prev: CacheNode?)
      requires Ready() && capacity >= 2 && newNode !in Repr
      requires prev == null <==> hashMap[Slot(newNode.filePath)] == null
      requires prev != null ==> list != [] && prev == list[|list| - 1]
      requires Find(model, newNode.filePath) == |model|
      modifies this, list, hashMap, newNode
      ensures Ready() && now == old(now) + 1 && Repr <= old(Repr) + {newNode}
      ensures model == LruModel.Put(old(model), capacity, newNode.filePath, old(newNode.lh), old(now))
    {
      AnchorIs(Slot(newNode.filePath));
      PutMakesRoom(model, capacity, newNode.filePath, newNode.lh, now);
      Announce(newNode, prev);
      MakeRoom();
      forall k | 0 <= k < |list| ensures list[k] in old(list) && list[k] != newNode {
        assert list == old(list)[1..] ==> list[k] == old(list)[k + 1];
      }
      Enter(newNode);
    }

    method Enter(newNode: CacheNode)
      requires Valid() && incoming == newNode && newNode !in list && size == |list| < capacity
      modifies `head, `tail, `list, `incoming, `model, `Repr, `now, `size,
        list`next, newNode`prev, newNode`next, newNode`stamp
      ensures Ready() && now == old(now) + 1 && Repr == old(Repr) + {newNode}
      ensures model ==
        old(model) + [Entry(newNode.filePath, newNode.lh, hashMap[Slot(newNode.filePath)] == newNode, old(now))]
    {
      AddToCache(newNode);
      Join(newNode);
      size := size + 1;
    }

    method Put(filePath: Word, lh: LLHead)
      requires Ready() && capacity >= 2
      modifies this, list, hashMap
      ensures Ready() && now == old(now) + 1 && fresh(Repr - old(Repr))
      ensures model == LruModel.Put(old(model), capacity, filePath, lh, old(now))
    {
      var node, prev, i := Lookup(filePath);
      if node != null {
        assert Matches(i);
        SetList(node, i, lh);
        MoveToEnd(node, i);
      } else {
        var newNode := new CacheNode(filePath, lh);
        PutNew(newNode, prev);
      }
    }

    // ---------- removeForDelete ----------

    /** RemoveFromHashMap: the node has left the list; its old neighbours are joined once more, and when
        it had no predecessor its slot moves on to its successor. */
    method RemoveFromHashMap(node: CacheNode, hash: nat)
      requires hash < 31 && hashMap.Length == 31 && Chain(list)
      requires node.prev != null ==> node.prev in list && node.prev.next == node.next
      requires node.next != null ==> node.next in list && node.next.prev == node.prev
      modifies hashMap, list`prev, list`next
      ensures Chain(list)
      ensures forall k | 0 <= k < 31 ::
        hashMap[k] == if node.prev == null && k == hash then node.next else old(hashMap[k])
      ensures forall k | 0 <= k < |list| :: list[k].next == old(list[k].next)
    {
      if node.prev != null {
        node.prev.next := node.next;
      } else {
        hashMap[hash] := node.next;
      }
      if node.next != null {
        node.next.prev := node.prev;
      }
      forall k | 0 <= k < |list| ensures Link(list, k) {
        assert old(Link(list, k));
      }
    }

    /** The row of node k, whatever its slot points at. */
    ghost predicate Row(k: nat)
      requires k < |list| && k < |model|
      reads `list, `model, list`lh, list`stamp
    {
      model[k].path == list[k].filePath && model[k].lh == list[k].lh && model[k].stamp == list[k].stamp
    }

    /** Everything but the hash slots. */
    ghost predicate Loose()
      reads `list, `model, `incoming, `now, `Repr, `head, `tail, list`lh, list`stamp, list`prev, list`next
    {
      && this in Repr && hashMap in Repr && hashMap.Length == 31 && |model| == |list|
      && (forall i {:trigger Owns(i)} | 0 <= i < |list| :: Owns(i))
      && (forall i, j {:trigger Older(i, j)} | 0 <= i < j < |list| :: Older(i, j))
      && (forall i {:trigger Row(i)} | 0 <= i < |list| :: Row(i))
      && Chain(list)
    }

    /** removeFromCache for good: the old neighbours now lead to each other. */
    method TakeOut(node: CacheNode, ghost i: nat)
      requires Valid() && incoming == null && i < |list| && list[i] == node
      modifies `head, `tail, `list, `incoming, `model, list`prev, list`next
      ensures Valid() && list == Drop(old(list), i) && model == Drop(old(model), i) && incoming == node
      ensures list != [] ==> list[|list| - 1].next == null
      ensures node !in list
      ensures node.prev == (if i == 0 then null else list[i - 1]) && (i > 0 ==> list[i - 1].next == node.next)
      ensures node.next == (if i == |list| then null else list[i]) && (i < |list| ==> list[i].prev == node.prev)
    {
      assert Link(list, i);
      RemoveFromCache(node, i);
      Leave(i);
      if i > 0 { assert Link(list, i - 1); }
      if i < |list| { assert Link(list, i); }
    }

    /** removeFromCache and RemoveFromHashMap, one after the other. */
    method Detach(node: CacheNode, ghost i: nat, hash: nat)
      requires Valid() && incoming == null && i < |list| && list[i] == node && hash < 31
      modifies `head, `tail, `list, `incoming, `model, list`prev, list`next, hashMap
      ensures Loose() && list == Drop(old(list), i) && model == Drop(old(model), i) && incoming == node
      ensures list != [] ==> list[|list| - 1].next == null
      ensures forall k | 0 <= k < 31 ::
        hashMap[k] == if i == 0 && k == hash then (if list == [] then null else list[0]) else old(hashMap[k])
    {
      TakeOut(node, i);
      label Left:
      RemoveFromHashMap(node, hash);
      forall k | 0 <= k < |list| ensures Owns(k) && Row(k) {
        assert old@Left(Owns(k) && Matches(k));
      }
    }

    /** What the hash slots and the anchors of the entries were before node i left. */
    ghost predicate Before(node: CacheNode, hash: nat, c: Cache<LLHead>, i: nat, slots: seq<CacheNode?>)
      requires i < |c| && hash < 31 && |slots| == 31
      reads `list
    {
      && node !in list && Slot(node.filePath) == hash && c[i].path == node.filePath
      && (c[i].anchor <==> slots[hash] == node) && (i == 0 ==> c[i].anchor)
      && |c| == |list| + 1
      && (forall k | 0 <= k < |list| :: c[Origin(i, k)].path == list[k].filePath
                                        && (c[Origin(i, k)].anchor <==> slots[Slot(list[k].filePath)] == list[k]))
      && (forall h | 0 <= h < 31 && slots[h] != null ::
            Slot(slots[h].filePath) == h && (slots[h] in list || slots[h] == node))
    }

    /** Nothing is on its way into the list any more. The removed node itself is not freed. */
    ghost method Release()
      requires Loose() && (list != [] ==> list[|list| - 1].next == null)
      modifies `incoming
      ensures Loose() && incoming == null
    {
      incoming := null;
      forall k | 0 <= k < |list| ensures Link(list, k) && Owns(k) {
        assert old(Link(list, k) && Owns(k));
      }
    }

    /** What the hash slots point at after node i has left and its slot may have moved on. */
    ghost predicate Moved(hash: nat, i: nat, slots: seq<CacheNode?>)
      requires hashMap.Length == 31
      reads hashMap, `list
    {
      |slots| == 31 && forall k | 0 <= k < 31 ::
        hashMap[k] == if i == 0 && k == hash then (if list == [] then null else list[0]) else slots[k]
    }

    lemma SlotLost(node: CacheNode, hash: nat, c: Cache<LLHead>, i: nat, slots: seq<CacheNode?>)
      requires Loose() && incoming == null && i < |c| && hash < 31 && Moved(hash, i, slots)
      requires Before(node, hash, c, i, slots) && !Removable(c, i)
      ensures !SlotOk(hash)
    {
      if i == 0 {
        assert c[Origin(0, 0)].path == list[0].filePath;
      }
    }

    lemma SlotsKept(node: CacheNode, hash: nat, c: Cache<LLHead>, i: nat, slots: seq<CacheNode?>, h: nat)
      requires Loose() && incoming == null && i < |c| && hash < 31 && h < 31 && Moved(hash, i, slots)
      requires Before(node, hash, c, i, slots) && Removable(c, i)
      ensures SlotOk(h)
    {
      if i == 0 && list != [] {
        assert c[Origin(0, 0)].path == list[0].filePath;
      }
    }

    lemma RestoredRow(node: CacheNode, hash: nat, c: Cache<LLHead>, i: nat, slots: seq<CacheNode?>, k: nat)
      requires Loose() && i < |c| && model == Drop(c, i) && hash < 31 && Moved(hash, i, slots)
      requires Before(node, hash, c, i, slots) && Removable(c, i) && k < |list|
      ensures |Remove(c, i)| == |list|
      ensures Remove(c, i)[k] == AtSlot(k)
    {
      assert Row(k) && c[Origin(i, k)].path == list[k].filePath;
      if 0 < k {
        assert Older(0, k);
      }
    }

    ghost method Restore(node: CacheNode, hash: nat, c: Cache<LLHead>, i: nat, slots: seq<CacheNode?>)
      requires Loose() && incoming == null && i < |c| && model == Drop(c, i) && hash < 31 && Moved(hash, i, slots)
      requires Before(node, hash, c, i, slots) && Removable(c, i)
      modifies `model
      ensures Valid() && model == Remove(c, i)
    {
      AllSlotsKept(node, hash, c, i, slots);
      var d := Remove(c, i);
      AllRestored(node, hash, c, i, slots, d);
      model := d;
      forall k | 0 <= k < |list| ensures Matches(k) {
        assert d[k] == old(AtSlot(k));
      }
    }

    lemma AllSlotsKept(node: CacheNode, hash: nat, c: Cache<LLHead>, i: nat, slots: seq<CacheNode?>)
      requires Loose() && incoming == null && i < |c| && hash < 31 && Moved(hash, i, slots)
      requires Before(node, hash, c, i, slots) && Removable(c, i)
      ensures forall h {:trigger SlotOk(h)} | 0 <= h < 31 :: SlotOk(h)
    {
      forall h | 0 <= h < 31 ensures SlotOk(h) {
        SlotsKept(node, hash, c, i, slots, h);
      }
    }

    lemma AllRestored(node: CacheNode, hash: nat, c: Cache<LLHead>, i: nat, slots: seq<CacheNode?>, d: Cache<LLHead>)
      requires Loose() && i < |c| && model == Drop(c, i) && hash < 31 && Moved(hash, i, slots)
      requires Before(node, hash, c, i, slots) && Removable(c, i) && d == Remove(c, i)
      ensures |d| == |list| && forall k | 0 <= k < |list| :: d[k] == AtSlot(k)
    {
      assert |d| == |list|;
      forall k | 0 <= k < |list| ensures d[k] == AtSlot(k) {
        RestoredRow(node, hash, c, i, slots, k);
      }
    }

    /** removeForDelete. The hash slots stay in order exactly when the entry is Removable. Otherwise the
        path's slot is left pointing at the removed node, so that the next lookup of the path still hits
        it; or, when the head went, at a node of another slot. */
    method RemoveForDelete(filePath: Word) returns (lh: LLHead?)
      requires Ready()
      modifies `head, `tail, `list, `incoming, `model, `now, `size, list`prev, list`next, hashMap
      ensures now == old(now) + 1
      ensures Find(old(model), filePath) == |old(model)| ==>
        lh == null && Ready() && model == old(model) && list == old(list)
      ensures Find(old(model), filePath) < |old(model)| ==> var i := Find(old(model), filePath);
        && lh == old(model)[i].lh && list == Drop(old(list), i) && Chain(list) && incoming == null && size == |list|
        && (Removable(old(model), i) ==> Ready() && model == Remove(old(model), i))
        && (!Removable(old(model), i) ==> !SlotOk(Slot(filePath)) && model == Drop(old(model), i))
        && (!Removable(old(model), i) && i > 0 ==>
            hashMap[Slot(filePath)] == old(list)[i] && old(list)[i].filePath == filePath)
      ensures Find(old(model), filePath) < |old(model)| ==> forall k | 0 <= k < 31 ::
        hashMap[k] == if Find(old(model), filePath) == 0 && k == Slot(filePath) then head else old(hashMap[k])
    {
      var hash := Slot(filePath);
      var node, prev, i := Lookup(filePath);
      if node == null {
        Tick();
        return null;
      }
      assert Matches(i);
      RemoveNode(node, i, hash);
      if Removable(old(model), i) {
        Tick();
      } else {
        now := now + 1;
      }
      return node.lh;
    }

    /** Whether removeForDelete of the path would leave the hash slots in order. */
    method CanRemove(filePath: Word) returns (b: bool)
      requires Ready()
      ensures b <==> Admits(model, RemoveOp(filePath))
    {
      var hash := Slot(filePath);
      var node, prev, i := Lookup(filePath);
      if node == null {
        return true;
      }
      assert Matches(i) && Link(list, i);
      if i > 0 { Distinct(0, i); }
      if i + 1 < |list| { assert Matches(i + 1); }
      b := hashMap[hash] != node || (node == head && (node.next == null || Slot(node.next.filePath) == hash));
    }

    method RemoveNode(node: CacheNode, ghost i: nat, hash: nat)
      requires Ready() && i < |list| && list[i] == node && Visible(model, i) && hash == Slot(node.filePath)
      modifies `head, `tail, `list, `incoming, `model, `size, list`prev, list`next, hashMap
      ensures list == Drop(old(list), i) && Chain(list) && incoming == null && size == |list|
      ensures Removable(old(model), i) ==> Ready() && model == Remove(old(model), i)
      ensures !Removable(old(model), i) ==> !SlotOk(hash) && model == Drop(old(model), i)
      ensures !Removable(old(model), i) && i > 0 ==> hashMap[hash] == node
      ensures forall k | 0 <= k < 31 :: hashMap[k] == if i == 0 && k == hash then head else old(hashMap[k])
    {
      ghost var c, slots := model, hashMap[..];
      Unlink(node, i, hash);
      if Removable(c, i) {
        Restore(node, hash, c, i, slots);
      } else {
        SlotLost(node, hash, c, i, slots);
      }
    }

    /** The node leaves the list, and its slot may move on. */
    method Unlink(node: CacheNode, ghost i: nat, hash: nat)
      requires Ready() && i < |list| && list[i] == node && Visible(model, i) && hash == Slot(node.filePath)
      modifies `head, `tail, `list, `incoming, `model, `size, list`prev, list`next, hashMap
      ensures Loose() && incoming == null && size == |list|
      ensures list == Drop(old(list), i) && model == Drop(old(model), i)
      ensures Moved(hash, i, old(hashMap[..])) && Before(node, hash, old(model), i, old(hashMap[..]))
    {
      RecordBefore(node, i);
      Detach(node, i, hash);
      size := size - 1;
      Release();
    }

    lemma RecordBefore(node: CacheNode, i: nat)
      requires Valid() && incoming == null && i < |list| && list[i] == node && Visible(model, i)
      ensures var c, slots, rest := model, hashMap[..], Drop(list, i); 
        && node !in rest && c[i].path == node.filePath && c[i].lh == node.lh
        && (c[i].anchor <==> slots[Slot(node.filePath)] == node) && (i == 0 ==> c[i].anchor)
        && (forall k | 0 <= k < |rest| :: c[Origin(i, k)].path == rest[k].filePath
                                          && (c[Origin(i, k)].anchor <==> slots[Slot(rest[k].filePath)] == rest[k]))
        && (forall h | 0 <= h < 31 && slots[h] != null ::
            Slot(slots[h].filePath) == h && (slots[h] in rest || slots[h] == node))
    {
      var rest := Drop(list, i);
      assert Matches(i);
      forall k | 0 <= k < |rest|
        ensures rest[k] != node && rest[k] == list[Origin(i, k)]
        ensures model[Origin(i, k)].path == rest[k].filePath
        ensures model[Origin(i, k)].anchor <==> hashMap[Slot(rest[k].filePath)] == rest[k]
      {
        Distinct(Origin(i, k), i);
        assert Matches(Origin(i, k));
      }
      forall h | 0 <= h < 31 && hashMap[h] != null
        ensures Slot(hashMap[h].filePath) == h && (hashMap[h] in rest || hashMap[h] == node)
      {
        assert SlotOk(h);
        var o :| 0 <= o < |list| && list[o] == hashMap[h];
        if o != i {
          assert rest[if o < i then o else o - 1] == list[o];
        }
      }
    }
  }
}
