/** Saving the heap trie to a file and loading it back. */
module TrieFiles {
  import opened Words
  import opened TrieModel
  import opened TrieWalk
  import opened TriesHeap
  import opened TrieReading
  import opened CText
  import opened TrieText

  class TextFile {
    var text: Word

    constructor ()
      ensures text == []
    {
      text := [];
    }
  }

  lemma {:induction false} LinesConcat(t: Trie, a: seq<Word>, b: seq<Word>)
    ensures Lines(t, a + b) == Lines(t, a) + Lines(t, b)
    decreases a
  {
    if a == [] {
      assert a + b == b;
    } else {
      assert (a + b)[1..] == a[1..] + b;
      LinesConcat(t, a[1..], b);
    }
  }

  /** fprintf of one word and its ports. */
  method PrintLine(file: TextFile, word: Word, ports: seq<int>)
    modifies file
    ensures file.text == old(file.text) + Line(word, ports)
  {
    file.text := file.text + (word + HEADER);
    PrintPorts(file, ports);
    file.text := file.text + ['\n'];
    assert file.text == old(file.text) + (word + HEADER + PortsText(ports) + ['\n']);
  }

  /** Print one port behind a space. */
  method PrintPort(file: TextFile, port: int)
    modifies file
    ensures file.text == old(file.text) + ([' '] + Dec(port))
  {
    file.text := file.text + ([' '] + Dec(port));
  }

  lemma PortsTextStep(before: Word, ports: seq<int>)
    requires ports != []
    ensures before + ([' '] + Dec(ports[0])) + PortsText(ports[1..]) == before + PortsText(ports)
  {
    Associates(before, [' '] + Dec(ports[0]), PortsText(ports[1..]));
  }

  method PrintPorts(file: TextFile, ports: seq<int>)
    modifies file
    ensures file.text == old(file.text) + PortsText(ports)
  {
    var temp := ports;
    while temp != []
      invariant file.text + PortsText(temp) == old(file.text) + PortsText(ports)
      decreases |temp|
    {
      PortsTextStep(file.text, temp);
      PrintPort(file, temp[0]);
      temp := temp[1..];
    }
  }

  /** saveTrieContentsToFile: every call has its own copy of the word. */
  method SaveTrieContents(thp: Tries, tp: TrieNode, word: Word, file: TextFile)
    requires thp.Valid() && word in thp.nodes && tp == thp.nodes[word] && file !in thp.Repr
    modifies file
    ensures file.text == old(file.text) + Lines(thp.model, Subtree(thp.model, word))
    decreases Extensions(thp.model, word)
  {
    ghost var t := thp.model;
    assert thp.Owns(word) && thp.Matches(word);
    ghost var first := if tp.isEnd then [word] else [];
    if tp.isEnd {
      PrintLine(file, word, tp.ports);
    }
    assert file.text == old(file.text) + Lines(t, first);
    LinesConcat(t, first, Listing(t, word, 1));
    SaveChildren(thp, tp, word, file);
  }

  method SaveChildren(thp: Tries, tp: TrieNode, word: Word, file: TextFile)
    requires thp.Valid() && word in thp.nodes && tp == thp.nodes[word] && file !in thp.Repr
    modifies file
    ensures file.text == old(file.text) + Lines(thp.model, Listing(thp.model, word, 1))
    decreases Extensions(thp.model, word), 0
  {
    ghost var t := thp.model;
    for i := 0 to 128
      invariant file.text + Lines(t, Listing(t, word, From(i))) == old(file.text) + Lines(t, Listing(t, word, 1))
    {
      Slot(thp, word, i);
      if tp.alpha[i] != null {
        var newWord := word + [i as char];
        FewerExtensions(t, word, i as char);
        ghost var before := file.text;
        SaveTrieContents(thp, tp.alpha[i], newWord, file);
        LinesUnfold(t, word, i, before, file.text);
      }
    }
  }

  lemma LinesUnfold(t: Trie, p: Word, i: nat, before: Word, after: Word)
    requires 1 <= i < 128 && p + [i as char] in t
    requires after == before + Lines(t, Subtree(t, p + [i as char]))
    ensures after + Lines(t, Listing(t, p, i + 1)) == before + Lines(t, Listing(t, p, i))
  {
    var here, later := Subtree(t, p + [i as char]), Listing(t, p, i + 1);
    LinesConcat(t, here, later);
    Associates(before, Lines(t, here), Lines(t, later));
    assert Listing(t, p, i) == here + later;
  }

  lemma Associates(a: Word, b: Word, c: Word)
    ensures (a + b) + c == a + (b + c)
  {}

  /** saveTrieToFile, on a file that could be opened. */
  method SaveTrieToFile(thp: Tries) returns (file: TextFile)
    requires thp.Valid()
    ensures fresh(file) && file.text == Save(thp.model)
  {
    file := new TextFile();
    SaveTrieContents(thp, thp.head, [], file);
  }

  // ---------- loading ----------

  /** insertback, and the mark that the loop sets with every port. */
  method AppendPort(thp: Tries, tp: TrieNode, ghost p: Word, port: int)
    requires thp.Valid() && p in thp.nodes && tp == thp.nodes[p]
    modifies thp`model, tp`isEnd, tp`ports
    ensures thp.Valid()
    ensures thp.model ==
      old(thp.model)[p := old(thp.model)[p].(isEnd := true, ports := InsertBack(old(thp.model)[p].ports, port))]
  {
    assert thp.Owns(p) && thp.Matches(p);
    thp.SetEnd(tp, p, true);
    thp.SetPorts(tp, p, InsertBack(tp.ports, port));
  }

  method LoadPortList(thp: Tries, tp: TrieNode, ghost p: Word, file: Word) returns (rest: Word)
    requires thp.Valid() && p in thp.nodes && tp == thp.nodes[p]
    modifies thp`model, tp`isEnd, tp`ports
    ensures thp.Valid() && (thp.model, rest) == LoadPorts(old(thp.model), p, file)
  {
    rest := file;
    while true
      invariant thp.Valid()
      invariant LoadPorts(thp.model, p, rest) == LoadPorts(old(thp.model), p, file)
      decreases |rest|
    {
      ScanIntShrinks(rest);
      match ScanInt(rest) {
        case Match(port, r) =>
          AppendPort(thp, tp, p, port);
          rest := r;
        case NoMatch(r) => return r;
        case Eof => return [];
      }
    }
  }

  /** The loop of the loader along a word: create the child, count the node, step down; count the last. */
  method LoadPath(thp: Tries, word: Word) returns (tp: TrieNode)
    requires thp.Valid()
    modifies thp.Repr
    ensures thp.Valid() && fresh(thp.Repr - old(thp.Repr))
    ensures word in thp.nodes && tp == thp.nodes[word]
    ensures thp.model == Walked(old(thp.model), word, |word| + 1)
  {
    tp := thp.head;
    var length := |word|;
    for i := 0 to length
      invariant thp.Valid() && fresh(thp.Repr - old(thp.Repr))
      invariant Stop(word, i) in thp.nodes && tp == thp.nodes[Stop(word, i)]
      invariant thp.model == Walked(old(thp.model), word, i)
    {
      assert thp.Owns(Stop(word, i));
      tp := LoadStep(thp, tp, word, i);
    }
    assert Stop(word, length) == word == Stop(word, length + 1);
    assert thp.Owns(word);
    thp.AddToCount(tp, word, 1);
  }

  method LoadStep(thp: Tries, tp: TrieNode, word: Word, i: nat) returns (n: TrieNode)
    requires thp.Valid() && i < |word|
    requires Stop(word, i) in thp.nodes && tp == thp.nodes[Stop(word, i)]
    modifies thp, tp, tp.alpha
    ensures thp.Valid() && fresh(thp.Repr - old(thp.Repr))
    ensures Stop(word, i + 1) in thp.nodes && n == thp.nodes[Stop(word, i + 1)]
    ensures thp.model == Round(old(thp.model), Stop(word, i), Stop(word, i + 1))
  {
    assert word[..i] + [word[i]] == word[..i + 1] && word[..i] != word[..i + 1];
    n := thp.Descend(tp, word[..i], word[i]);
    thp.AddToCount(tp, word[..i], 1);
  }

  /** loadTrieContentsFromFile, on a file that could be opened. */
  method LoadTrieContents(file: Word) returns (thp: Tries)
    ensures fresh(thp) && thp.Valid() && fresh(thp.Repr) && thp.model == Load(EMPTY_TRIE, file)
  {
    thp := new Tries();
    var rest := file;
    while true
      invariant thp.Valid() && fresh(thp.Repr)
      invariant Load(thp.model, rest) == Load(EMPTY_TRIE, file)
      decreases |rest|
    {
      ScanHeaderShrinks(rest, LITERAL);
      match ScanHeader(rest, LITERAL) {
        case Match(word, r) =>
          rest := LoadWord(thp, word, r);
        case _ => return;
      }
    }
  }

  method LoadWord(thp: Tries, word: Word, file: Word) returns (rest: Word)
    requires thp.Valid()
    modifies thp.Repr
    ensures thp.Valid() && fresh(thp.Repr - old(thp.Repr)) && |rest| <= |file|
    ensures (thp.model, rest) == LoadPorts(Walked(old(thp.model), word, |word| + 1), word, file)
  {
    var tp := LoadPath(thp, word);
    assert thp.Owns(word);
    LoadPortsShrinks(thp.model, word, file);
    rest := LoadPortList(thp, tp, word, file);
  }
}
