/** The functions that only read the trie: searchWords, nextentry, the enumerations through a shared
    character buffer, and searchSubstring. */
module TrieReading {
  import opened Words
  import opened TrieModel
  import opened TrieWalk
  import opened TriesHeap

  // ---------- C strings in buffers ----------

  /** The string a buffer holds: everything before the first NUL. */
  ghost function CString(s: seq<char>): seq<char> {
    if s == [] || s[0] == '\0' then [] else [s[0]] + CString(s[1..])
  }

  lemma {:induction false} CStringIs(s: seq<char>, w: Word)
    requires |w| < |s| && s[..|w|] == w && s[|w|] == '\0'
    ensures CString(s) == w
  {
    if w != [] {
      assert s[0] == w[0];
      assert s[1..][..|w[1..]|] == w[1..];
      CStringIs(s[1..], w[1..]);
    }
  }

  /** Every linked word fits a buffer of n characters with its terminator. */
  ghost predicate Fits(t: Trie, n: nat) {
    forall q | q in t :: |q| < n
  }

  // ---------- walking down a given path ----------

  /** The loop shared by searchWords, nextentry, searchSubstring and LL_Tries_Ports_fn. */
  method Find(thp: Tries, val: Word) returns (tp: TrieNode?)
    requires thp.Valid()
    ensures tp == if val in thp.nodes then thp.nodes[val] else null
  {
    tp := thp.head;
    for i := 0 to |val|
      invariant val[..i] in thp.nodes && tp == thp.nodes[val[..i]]
    {
      assert val[..i] + [val[i]] == val[..i + 1];
      assert thp.Owns(val[..i]) && thp.Linked(val[..i], val[i]);
      var pos := val[i] as int;
      if tp.alpha[pos] == null {
        NotLinked(thp, val, i + 1);
        return null;
      }
      tp := tp.alpha[pos];
    }
    assert val[..|val|] == val;
  }

  lemma {:induction false} NotLinked(thp: Tries, val: Word, i: nat)
    requires thp.Valid() && i <= |val| && val[..i] !in thp.nodes
    ensures val !in thp.nodes
    decreases |val| - i
  {
    if i == |val| {
      assert val[..i] == val;
    } else {
      assert val[..i] + [val[i]] == val[..i + 1];
      assert thp.Linked(val[..i], val[i]);
      NotLinked(thp, val, i + 1);
    }
  }

  method SearchSubstring(thp: Tries, substring: Word) returns (r: int)
    requires thp.Valid()
    ensures r == if substring in thp.model then 1 else 0
  {
    var tp := Find(thp, substring);
    r := if tp == null then 0 else 1;
  }

  // ---------- searchWords ----------

  function Reversed<T>(s: seq<T>): seq<T> {
    if s == [] then [] else Reversed(s[1..]) + [s[0]]
  }

  lemma {:induction false} ReversedSame<T>(s: seq<T>, x: T)
    ensures |Reversed(s)| == |s| && (x in Reversed(s) <==> x in s)
  {
    if s != [] {
      ReversedSame(s[1..], x);
    }
  }

  lemma {:induction false} ReversedAt<T>(s: seq<T>, k: nat)
    requires k < |s|
    ensures |Reversed(s)| == |s| && Reversed(s)[k] == s[|s| - 1 - k]
  {
    ReversedSame(s[1..], s[0]);
    if k < |s| - 1 {
      ReversedAt(s[1..], k);
    }
  }

  /** Copy the ports of a path in front of a list. An absent path leaves the list alone; a present
      path without ports turns the size of an empty list to -1. */
  method SearchWords(thp: Tries, val: Word, lh: LLHead)
    requires thp.Valid() && lh !in thp.Repr && lh.currSize == |lh.items|
    modifies lh
    ensures val !in thp.model ==> lh.items == old(lh.items) && lh.currSize == old(lh.currSize)
    ensures val in thp.model ==>
      && lh.items == Reversed(thp.model[val].ports) + old(lh.items)
      && lh.currSize == if lh.items == [] then -1 else |lh.items|
    ensures val in thp.model ==>
      var ports := thp.model[val].ports;
      && |lh.items| == |ports| + |old(lh.items)|
      && forall k | 0 <= k < |ports| :: lh.items[k] == ports[|ports| - 1 - k]
  {
    var tp := Find(thp, val);
    if tp == null {
      return;
    }
    assert thp.Owns(val) && thp.Matches(val);
    var temp := tp.ports;
    CopyInFront(temp, lh);
    if lh.currSize == 0 {
      lh.currSize := -1;
    }
    ReversedSame(temp, 0);
    forall k | 0 <= k < |temp| ensures lh.items[k] == temp[|temp| - 1 - k] {
      ReversedAt(temp, k);
    }
  }

  method CopyInFront(ports: seq<int>, lh: LLHead)
    requires lh.currSize == |lh.items|
    modifies lh
    ensures lh.items == Reversed(ports) + old(lh.items) && lh.currSize == |lh.items|
  {
    var temp := ports;
    while temp != []
      invariant Reversed(temp) + lh.items == Reversed(ports) + old(lh.items)
      invariant lh.currSize == |lh.items|
      decreases |temp|
    {
      ghost var before := lh.items;
      lh.InsertFront(temp[0]);
      assert lh.items == [temp[0]] + before;
      assert Reversed(temp) + before == Reversed(temp[1..]) + ([temp[0]] + before);
      temp := temp[1..];
    }
  }

  // ---------- one step of a walk that spells its path in a buffer ----------

  /** Extend the string in the buffer by one letter. */
  method Append(val: array<char>, len: nat, c: Letter, ghost p: Word)
    requires len == |p| && len + 1 < val.Length && val[..len] == p
    modifies val
    ensures val[..len] == p && val[..len + 1] == p + [c] && val[len + 1] == '\0'
    ensures CString(val[..]) == p + [c]
  {
    val[len] := c;
    val[len + 1] := '\0';
    assert val[..len + 1] == p + [c];
    CStringIs(val[..], p + [c]);
  }

  /** The child slot the walk looks at in round i: empty exactly when no linked node continues p so. */
  lemma Slot(thp: Tries, p: Word, i: nat)
    requires thp.Valid() && p in thp.nodes && i < 128
    ensures thp.nodes[p].alpha.Length == 128
    ensures thp.nodes[p].alpha[i] == if i != 0 && p + [i as char] in thp.nodes then thp.nodes[p + [i as char]] else null
  {
    assert thp.Owns(p) && thp.Linked(p, if i == 0 then 'a' else i as char);
  }

  function From(i: nat): nat {
    if i == 0 then 1 else i
  }

  // ---------- nextentry ----------

  method RecInto(thp: Tries, tp: TrieNode, val: array<char>, len: nat, ghost p: Word)
    requires thp.Valid() && p in thp.nodes && tp == thp.nodes[p]
    requires Fits(thp.model, val.Length) && len == |p| && val[..len] == p && val[len] == '\0'
    requires val !in thp.Repr
    modifies val
    ensures CString(val[..]) == Rec(thp.model, p)
    decreases Extensions(thp.model, p)
  {
    for i := 0 to 128
      invariant val[..len] == p && val[len] == '\0'
      invariant FirstKid(thp.model, p, 1) == FirstKid(thp.model, p, From(i))
    {
      Slot(thp, p, i);
      if tp.alpha[i] != null {
        ghost var q := p + [i as char];
        var kid: TrieNode := tp.alpha[i];
        Append(val, len, i as char, p);
        assert thp.Owns(q) && thp.Matches(q);
        FewerExtensions(thp.model, p, i as char);
        if !kid.isEnd {
          RecInto(thp, kid, val, len + 1, q);
        }
        return;
      }
    }
    CStringIs(val[..], p);
  }

  const BUFFER := 512

  method StrCpy(val: array<char>, w: Word)
    requires |w| < val.Length
    modifies val
    ensures val[..|w|] == w && val[|w|] == '\0'
  {
    for i := 0 to |w|
      invariant val[..i] == w[..i]
    {
      val[i] := w[i];
    }
    val[|w|] := '\0';
  }

  method NextEntryInto(thp: Tries, val: Word) returns (T: array<char>)
    requires thp.Valid() && Fits(thp.model, BUFFER)
    ensures CString(T[..]) == NextEntry(thp.model, val)
    ensures fresh(T)
  {
    var tp := Find(thp, val);
    if tp == null {
      T := new char[1](_ => '\0');
      return;
    }
    T := new char[BUFFER];
    StrCpy(T, val);
    RecInto(thp, tp, T, |val|, val);
  }

  // ---------- enumeration through one shared buffer ----------

  /** The lines written to a file. */
  class Output {
    var lines: seq<string>

    constructor ()
      ensures lines == []
    {
      lines := [];
    }
  }

  /** printTriesFile: the buffer spells the path of tp when the walk enters it, and again when it leaves. */
  method PrintTriesFile(thp: Tries, tp: TrieNode, j: nat, file: Output, val: array<char>, ghost p: Word)
    requires thp.Valid() && p in thp.nodes && tp == thp.nodes[p]
    requires Fits(thp.model, val.Length) && j == |p| && val[..j] == p
    requires val !in thp.Repr && file !in thp.Repr
    modifies val, file
    ensures file.lines == old(file.lines) + Listing(thp.model, p, 1)
    ensures val[..j] == p
    decreases Extensions(thp.model, p), 0
  {
    ghost var t := thp.model;
    for i := 0 to 128
      invariant val[..j] == p
      invariant file.lines + Listing(t, p, From(i)) == old(file.lines) + Listing(t, p, 1)
    {
      Slot(thp, p, i);
      if tp.alpha[i] != null {
        FewerExtensions(t, p, i as char);
        ghost var before := file.lines;
        PrintChild(thp, tp.alpha[i], j, i as char, file, val, p);
        ListingUnfolds(t, p, i, before, file.lines);
      }
    }
  }

  lemma ListingUnfolds(t: Trie, p: Word, i: nat, before: seq<string>, after: seq<string>)
    requires 1 <= i < 128 && p + [i as char] in t
    requires after == before + Subtree(t, p + [i as char])
    ensures after + Listing(t, p, i + 1) == before + Listing(t, p, i)
  {}

  method PrintChild(thp: Tries, kid: TrieNode, j: nat, c: Letter, file: Output, val: array<char>, ghost p: Word)
    requires thp.Valid() && p + [c] in thp.nodes && kid == thp.nodes[p + [c]]
    requires Fits(thp.model, val.Length) && j == |p| && val[..j] == p
    requires val !in thp.Repr && file !in thp.Repr
    modifies val, file
    ensures file.lines == old(file.lines) + Subtree(thp.model, p + [c])
    ensures val[..j] == p
    decreases Extensions(thp.model, p + [c]), 1
  {
    ghost var q := p + [c];
    Append(val, j, c, p);
    assert thp.Owns(q) && thp.Matches(q);
    if kid.isEnd {
      file.lines := file.lines + [BufferString(val)];
    }
    PrintTriesFile(thp, kid, j + 1, file, val, q);
    assert val[..j] == val[..j + 1][..j];
  }

  /** Reading a string out of a buffer (%s, strcpy). */
  function BufferString(val: array<char>): (s: seq<char>)
    reads val
    ensures s == CString(val[..])
  {
    StringFrom(val, 0)
  }

  function StringFrom(val: array<char>, i: nat): (s: seq<char>)
    requires i <= val.Length
    reads val
    ensures s == CString(val[i..])
    decreases val.Length - i
  {
    if i == val.Length || val[i] == '\0' then [] else
      assert val[i..][1..] == val[i + 1..];
      [val[i]] + StringFrom(val, i + 1)
  }

  datatype Entry = Entry(val: Word, ssIndex: int)

  /** The list that Tries_Ports_fn builds by inserting in front. */
  class TrieContentHead {
    var cells: seq<Entry>

    constructor ()
      ensures cells == []
    {
      cells := [];
    }

    method InsertLLnodeTrie(val: Word, port: int)
      modifies this
      ensures cells == [Entry(val, port)] + old(cells)
    {
      cells := [Entry(val, port)] + cells;
    }
  }

  ghost predicate MarkedHavePorts(t: Trie) {
    forall q | q in t && t[q].isEnd :: t[q].ports != []
  }

  /** Listed words, each with the port at the front of its list, the latest first. */
  ghost function Collected(t: Trie, ws: seq<Word>): seq<Entry> {
    if ws == [] then [] else Collected(t, ws[1..]) + [EntryOf(t, ws[0])]
  }

  ghost function EntryOf(t: Trie, w: Word): Entry {
    Entry(w, if w in t && t[w].ports != [] then t[w].ports[0] else 0)
  }

  lemma {:induction false} CollectedConcat(t: Trie, a: seq<Word>, b: seq<Word>)
    ensures Collected(t, a + b) == Collected(t, b) + Collected(t, a)
  {
    if a == [] {
      assert a + b == b;
    } else {
      assert (a + b)[1..] == a[1..] + b;
      CollectedConcat(t, a[1..], b);
    }
  }

  /** The list holds exactly the listed words with their first ports, in the reverse of their order. */
  lemma {:induction false} CollectedAt(t: Trie, ws: seq<Word>, k: nat)
    requires k < |ws|
    ensures |Collected(t, ws)| == |ws|
    ensures Collected(t, ws)[|ws| - 1 - k] == EntryOf(t, ws[k])
    ensures Collected(t, ws)[|ws| - 1 - k].val == ws[k]
    ensures ws[k] in t && t[ws[k]].ports != [] ==> Collected(t, ws)[|ws| - 1 - k].ssIndex == t[ws[k]].ports[0]
    decreases ws
  {
    if |ws| > 1 {
      CollectedAt(t, ws[1..], if k == 0 then 0 else k - 1);
    }
  }

  method TriesPortsFn(llh: TrieContentHead, thp: Tries, tp: TrieNode, j: nat, val: array<char>, ghost p: Word)
    requires thp.Valid() && p in thp.nodes && tp == thp.nodes[p] && MarkedHavePorts(thp.model)
    requires Fits(thp.model, val.Length) && j == |p| && val[..j] == p
    requires val !in thp.Repr && llh !in thp.Repr
    modifies val, llh
    ensures llh.cells == Collected(thp.model, Listing(thp.model, p, 1)) + old(llh.cells)
    ensures val[..j] == p
    decreases Extensions(thp.model, p), 0
  {
    ghost var t := thp.model;
    for i := 0 to 128
      invariant val[..j] == p
      invariant Collected(t, Listing(t, p, From(i))) + llh.cells == Collected(t, Listing(t, p, 1)) + old(llh.cells)
    {
      Slot(thp, p, i);
      if tp.alpha[i] != null {
        FewerExtensions(t, p, i as char);
        ghost var before := llh.cells;
        CollectChild(llh, thp, tp.alpha[i], j, i as char, val, p);
        CollectedUnfolds(t, p, i, before, llh.cells);
      }
    }
  }

  lemma CollectedUnfolds(t: Trie, p: Word, i: nat, before: seq<Entry>, after: seq<Entry>)
    requires 1 <= i < 128 && p + [i as char] in t
    requires after == Collected(t, Subtree(t, p + [i as char])) + before
    ensures Collected(t, Listing(t, p, i + 1)) + after == Collected(t, Listing(t, p, i)) + before
  {
    var under, rest := Subtree(t, p + [i as char]), Listing(t, p, i + 1);
    assert Listing(t, p, i) == under + rest;
    CollectedConcat(t, under, rest);
  }

  method CollectChild(
    llh: TrieContentHead, thp: Tries, kid: TrieNode, j: nat, c: Letter, val: array<char>, ghost p: Word)
    requires thp.Valid() && p + [c] in thp.nodes && kid == thp.nodes[p + [c]] && MarkedHavePorts(thp.model)
    requires Fits(thp.model, val.Length) && j == |p| && val[..j] == p
    requires val !in thp.Repr && llh !in thp.Repr
    modifies val, llh
    ensures llh.cells == Collected(thp.model, Subtree(thp.model, p + [c])) + old(llh.cells)
    ensures val[..j] == p
    decreases Extensions(thp.model, p + [c]), 1
  {
    ghost var t, q := thp.model, p + [c];
    CollectHere(llh, thp, kid, j, c, val, p);
    TriesPortsFn(llh, thp, kid, j + 1, val, q);
    CollectedConcat(t, if t[q].isEnd then [q] else [], Listing(t, q, 1));
    assert val[..j] == val[..j + 1][..j];
  }

  /** The buffer gets the next letter, and the node there is collected if it is marked. */
  method CollectHere(
    llh: TrieContentHead, thp: Tries, kid: TrieNode, j: nat, c: Letter, val: array<char>, ghost p: Word)
    requires thp.Valid() && p + [c] in thp.nodes && kid == thp.nodes[p + [c]] && MarkedHavePorts(thp.model)
    requires Fits(thp.model, val.Length) && j == |p| && val[..j] == p
    requires val !in thp.Repr && llh !in thp.Repr
    modifies val, llh
    ensures thp.Valid() && p + [c] in thp.model
    ensures llh.cells == Collected(thp.model, if thp.model[p + [c]].isEnd then [p + [c]] else []) + old(llh.cells)
    ensures val[..j + 1] == p + [c] && val[..j] == p
  {
    Append(val, j, c, p);
    assert thp.Owns(p + [c]) && thp.Matches(p + [c]);
    CollectIfEnd(llh, kid, val, thp.model, p + [c]);
  }

  method CollectIfEnd(llh: TrieContentHead, kid: TrieNode, val: array<char>, ghost t: Trie, ghost q: Word)
    requires q in t && t[q].isEnd == kid.isEnd && t[q].ports == kid.ports && (kid.isEnd ==> kid.ports != [])
    requires CString(val[..]) == q
    modifies llh
    ensures llh.cells == Collected(t, if kid.isEnd then [q] else []) + old(llh.cells)
  {
    if kid.isEnd {
      llh.InsertLLnodeTrie(BufferString(val), kid.ports[0]);
      assert [q][1..] == [];
    }
  }

  /** LL_Tries_Ports_fn: the marked words below the directory val, found through val's own buffer,
      to which a slash is appended. */
  method LLTriesPortsFn(thp: Tries, val: array<char>, ghost dir: Word) returns (llh: TrieContentHead)
    requires thp.Valid() && MarkedHavePorts(thp.model) && val !in thp.Repr
    requires Fits(thp.model, val.Length) && |dir| + 1 < val.Length
    requires val[..|dir|] == dir && val[|dir|] == '\0'
    modifies val
    ensures fresh(llh) && llh.cells == Collected(thp.model, ListedBelow(thp.model, dir))
  {
    llh := new TrieContentHead();
    CStringIs(val[..], dir);
    var name := BufferString(val);
    var T := Find(thp, name);
    if T == null {
      SlashNotLinked(thp, dir);
      return;
    }
    Slot(thp, dir, SLASH as int);
    if T.alpha[SLASH as int] == null {
      return;
    }
    var D: TrieNode := T.alpha[SLASH as int];
    var j := |name|;
    Append(val, j, SLASH, dir);
    TriesPortsFn(llh, thp, D, j + 1, val, dir + [SLASH]);
  }

  lemma SlashNotLinked(thp: Tries, dir: Word)
    requires thp.Valid() && dir !in thp.nodes
    ensures dir + [SLASH] !in thp.nodes
  {
    assert thp.Linked(dir, SLASH);
  }

  /** What a listing of the directory dir shows. */
  ghost function ListedBelow(t: Trie, dir: Word): seq<Word> {
    if dir + [SLASH] in t then Listing(t, dir + [SLASH], 1) else []
  }
}
