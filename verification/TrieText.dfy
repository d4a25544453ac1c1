/** The trie as text: what saveTrieContentsToFile writes and what loadTrieContentsFromFile makes of it. */
module TrieText {
  import opened Words
  import opened TrieModel
  import opened TrieWalk
  import opened CText

  const HEADER: Word := " Ports:"
  const LITERAL: Word := "Ports:"

  // ---------- writing ----------

  function PortsText(ports: seq<int>): Word {
    if ports == [] then [] else [' '] + Dec(ports[0]) + PortsText(ports[1..])
  }

  function Line(w: Word, ports: seq<int>): Word {
    w + HEADER + PortsText(ports) + ['\n']
  }

  ghost function Lines(t: Trie, ws: seq<Word>): Word {
    if ws == [] then [] else Line(ws[0], At(t, ws[0]).ports) + Lines(t, ws[1..])
  }

  /** A line: the word, the literal " Ports:", and every port with a blank in front. */
  lemma {:induction false} LineText(w: Word, ports: seq<int>, x: int)
    ensures Line(w, []) == w + " Ports:" + "\n"
    ensures exists body :: Line(w, ports) == body + "\n" && Line(w, ports + [x]) == body + " " + Dec(x) + "\n"
  {
    PortsTextSnoc(ports, x);
    var body := w + HEADER + PortsText(ports);
    assert Line(w, ports + [x]) == body + " " + Dec(x) + "\n";
    assert Line(w, ports) == body + "\n";
    assert w + HEADER + PortsText([]) == w + " Ports:";
  }

  lemma {:induction false} PortsTextSnoc(ports: seq<int>, x: int)
    ensures PortsText(ports + [x]) == PortsText(ports) + " " + Dec(x)
  {
    if ports == [] {
      assert [x][1..] == [];
    } else {
      assert (ports + [x])[1..] == ports[1..] + [x];
      PortsTextSnoc(ports[1..], x);
    }
  }

  // ---------- reading ----------

  /** insertback keeps at most three elements: a further one replaces the third. */
  function InsertBack(ports: seq<int>, x: int): seq<int> {
    if |ports| == 0 then [x] else if |ports| == 1 then [ports[0], x] else [ports[0], ports[1], x]
  }

  /** The inner loop: read integers into the port list of w, marking w with the first one. */
  ghost function LoadPorts(t: Trie, w: Word, s: Word): (Trie, Word)
    decreases |s|
  {
    ScanIntShrinks(s);
    match ScanInt(s)
    case Match(x, rest) => LoadPorts(t[w := At(t, w).(isEnd := true, ports := InsertBack(At(t, w).ports, x))], w, rest)
    case NoMatch(rest) => (t, rest)
    case Eof => (t, [])
  }

  lemma {:induction false} LoadPortsShrinks(t: Trie, w: Word, s: Word)
    ensures |LoadPorts(t, w, s).1| <= |s|
    decreases |s|
  {
    ScanIntShrinks(s);
    match ScanInt(s)
    case Match(x, rest) =>
      LoadPortsShrinks(t[w := At(t, w).(isEnd := true, ports := InsertBack(At(t, w).ports, x))], w, rest);
    case NoMatch(rest) =>
    case Eof =>
  }

  /** The whole file: for each word, count its path and read its ports. */
  ghost function Load(t: Trie, s: Word): Trie
    decreases |s|
  {
    ScanHeaderShrinks(s, LITERAL);
    match ScanHeader(s, LITERAL)
    case Match(w, rest) =>
      LoadPortsShrinks(Walked(t, w, |w| + 1), w, rest);
      var (u, more) := LoadPorts(Walked(t, w, |w| + 1), w, rest);
      Load(u, more)
    case _ => t
  }

  // ---------- a written line is read back ----------

  /** A word that %s can read: not empty, no white space. */
  ghost predicate Carried(w: Word) {
    w != [] && forall i | 0 <= i < |w| :: !IsSpace(w[i])
  }

  /** A word that cannot be taken for one more port of the line before: no digit or sign in front either. */
  ghost predicate Plain(w: Word) {
    Carried(w) && !IsDigit(w[0]) && w[0] != '-' && w[0] != '+'
  }

  /** What may follow a line: nothing, or the next plain word. */
  ghost predicate Follows(r: Word) {
    r == [] || (!IsSpace(r[0]) && !IsDigit(r[0]) && r[0] != '-' && r[0] != '+')
  }

  ghost function InsertBackAll(first: seq<int>, ports: seq<int>): seq<int>
    decreases ports
  {
    if ports == [] then first else InsertBackAll(InsertBack(first, ports[0]), ports[1..])
  }

  /** Up to three ports come back in their order. */
  lemma {:induction false} ThreePorts(first: seq<int>, ports: seq<int>)
    requires |first| + |ports| <= 3
    ensures InsertBackAll(first, ports) == first + ports
    decreases ports
  {
    if ports != [] {
      ThreePorts(InsertBack(first, ports[0]), ports[1..]);
    }
  }

  /** Further ports only replace the third. */
  lemma {:induction false} PortsKeptExactly(first: seq<int>, ports: seq<int>)
    requires |first| <= 3
    ensures |InsertBackAll(first, ports)| == if |first| + |ports| <= 3 then |first| + |ports| else 3
    ensures InsertBackAll(first, ports) == first + ports <==> |first| + |ports| <= 3 || ports == []
    decreases ports
  {
    if ports != [] {
      PortsKeptExactly(InsertBack(first, ports[0]), ports[1..]);
      if |first| + |ports| <= 3 {
        ThreePorts(first, ports);
      }
    }
  }

  /** Of more than three ports the first two and the last remain. */
  lemma {:induction false} PortsThatRemain(ports: seq<int>)
    ensures InsertBackAll([], ports) ==
      if |ports| <= 3 then ports else [ports[0], ports[1], ports[|ports| - 1]]
  {
    if |ports| <= 3 {
      ThreePorts([], ports);
      assert [] + ports == ports;
    } else {
      ThreePorts([], ports[..3]);
      InsertBackConcat([], ports[..3], ports[3..]);
      assert ports[..3] + ports[3..] == ports && [] + ports[..3] == ports[..3];
      ThirdReplaced(ports[..3], ports[3..]);
    }
  }

  lemma {:induction false} InsertBackConcat(first: seq<int>, a: seq<int>, b: seq<int>)
    ensures InsertBackAll(first, a + b) == InsertBackAll(InsertBackAll(first, a), b)
    decreases a
  {
    if a == [] {
      assert a + b == b;
    } else {
      assert (a + b)[1..] == a[1..] + b;
      InsertBackConcat(InsertBack(first, a[0]), a[1..], b);
    }
  }

  lemma {:induction false} ThirdReplaced(first: seq<int>, more: seq<int>)
    requires |first| == 3 && more != []
    ensures InsertBackAll(first, more) == [first[0], first[1], more[|more| - 1]]
    decreases more
  {
    if |more| > 1 {
      ThirdReplaced(InsertBack(first, more[0]), more[1..]);
    } else {
      assert more[1..] == [];
    }
  }

  ghost function WithPorts(t: Trie, w: Word, ports: seq<int>): Trie
    requires w in t
  {
    if ports == [] then t else t[w := t[w].(isEnd := true, ports := InsertBackAll(t[w].ports, ports))]
  }

  lemma WithPortsStep(t: Trie, w: Word, ports: seq<int>)
    requires w in t && ports != []
    ensures WithPorts(t, w, ports)
            == WithPorts(t[w := t[w].(isEnd := true, ports := InsertBack(t[w].ports, ports[0]))], w, ports[1..])
  {
    var i := t[w].(isEnd := true, ports := InsertBack(t[w].ports, ports[0]));
    var j := i.(ports := InsertBackAll(i.ports, ports[1..]));
    assert t[w := i][w := j] == t[w := j];
  }

  lemma {:induction false} PortsReadBack(t: Trie, w: Word, ports: seq<int>, r: Word)
    requires w in t && Follows(r)
    ensures LoadPorts(t, w, PortsText(ports) + ['\n'] + r)
            == (WithPorts(t, w, ports), r)
    decreases ports
  {
    if ports == [] {
      var s := ['\n'] + r;
      assert PortsText(ports) + ['\n'] + r == s && s[1..] == r;
      assert SkipSpace(s) == SkipSpace(r) == r;
    } else {
      var x, tail := ports[0], PortsText(ports[1..]) + ['\n'] + r;
      var s := PortsText(ports) + ['\n'] + r;
      assert s == [' '] + Dec(x) + tail;
      assert tail[0] == ' ' || tail[0] == '\n';
      ScanIntReads(x, tail);
      var u := t[w := t[w].(isEnd := true, ports := InsertBack(t[w].ports, x))];
      PortsReadBack(u, w, ports[1..], r);
      WithPortsStep(t, w, ports);
    }
  }

  lemma {:induction false} WordLengthIs(w: Word, r: Word)
    requires (forall i | 0 <= i < |w| :: !IsSpace(w[i])) && r != [] && IsSpace(r[0])
    ensures WordLength(w + r) == |w|
    decreases w
  {
    if w == [] {
      assert w + r == r;
    } else {
      assert (w + r)[1..] == w[1..] + r;
      WordLengthIs(w[1..], r);
    }
  }

  lemma {:induction false} LiteralIs(lit: Word, r: Word)
    ensures SkipLiteral(lit + r, lit) == (true, r)
    decreases lit
  {
    if lit == [] {
      assert lit + r == r;
    } else {
      assert (lit + r)[1..] == lit[1..] + r;
      LiteralIs(lit[1..], r);
    }
  }

  lemma LoadPortsSkips(t: Trie, w: Word, b: Word)
    ensures LoadPorts(t, w, SkipSpace(b)) == LoadPorts(t, w, b)
  {
    SkipSpaceShrinks(b);
    assert SkipSpace(SkipSpace(b)) == SkipSpace(b);
    assert ScanInt(SkipSpace(b)) == ScanInt(b);
  }

  /** What the reader makes of one line: the word's path is counted, and its ports are appended. */
  ghost function WithLine(t: Trie, w: Word, ports: seq<int>): Trie
    requires [] in t
  {
    WalkedAt(t, w, |w| + 1, w);
    WithPorts(Walked(t, w, |w| + 1), w, ports)
  }

  lemma LineReadBack(t: Trie, w: Word, ports: seq<int>, r: Word)
    requires Carried(w) && Follows(r) && [] in t
    ensures Load(t, Line(w, ports) + r) == Load(WithLine(t, w, ports), r)
  {
    HeaderReadBack(w, ports, r);
    PortsPartReadBack(t, w, ports, PortsText(ports) + ['\n'] + r, r);
  }

  lemma PortsPartReadBack(t: Trie, w: Word, ports: seq<int>, body: Word, r: Word)
    requires Carried(w) && Follows(r) && [] in t && body == PortsText(ports) + ['\n'] + r
    ensures LoadPorts(Walked(t, w, |w| + 1), w, SkipSpace(body)) == (WithLine(t, w, ports), r)
  {
    WalkedAt(t, w, |w| + 1, w);
    LoadPortsSkips(Walked(t, w, |w| + 1), w, body);
    PortsReadBack(Walked(t, w, |w| + 1), w, ports, r);
  }

  lemma HeaderReadBack(w: Word, ports: seq<int>, r: Word)
    requires Carried(w)
    ensures ScanHeader(Line(w, ports) + r, LITERAL) == Match(w, SkipSpace(PortsText(ports) + ['\n'] + r))
  {
    var body := PortsText(ports) + ['\n'] + r;
    assert Line(w, ports) + r == w + (HEADER + body);
    WordThenLiteral(w, body);
  }

  lemma WordThenLiteral(w: Word, body: Word)
    requires Carried(w)
    ensures ScanHeader(w + (HEADER + body), LITERAL) == Match(w, SkipSpace(body))
  {
    var rest := HEADER + body;
    var s := w + rest;
    WordLengthIs(w, rest);
    assert SkipSpace(s) == s && s[..|w|] == w && s[|w|..] == rest;
    HeaderIs(body);
  }

  lemma HeaderIs(body: Word)
    ensures SkipLiteral(SkipSpace(HEADER + body), LITERAL) == (true, body)
  {
    assert (HEADER + body)[1..] == LITERAL + body;
    assert SkipSpace(LITERAL + body) == LITERAL + body;
    LiteralIs(LITERAL, body);
  }

  // ---------- the whole file ----------

  /** Reading the lines of the words ws one after the other. */
  ghost function WithLines(u: Trie, t: Trie, ws: seq<Word>): Trie
    requires [] in u
    decreases ws
  {
    if ws == [] then u
    else
      WithLineAt(u, ws[0], At(t, ws[0]).ports, []);
      WithLines(WithLine(u, ws[0], At(t, ws[0]).ports), t, ws[1..])
  }

  lemma WithLineAt(u: Trie, w: Word, ports: seq<int>, q: Word)
    requires [] in u
    ensures var v := WithLine(u, w, ports);
      && (q in v <==> q in u || q <= w)
      && At(v, q).count == At(u, q).count + (if q <= w then 1 else 0)
      && At(v, q).isEnd == (At(u, q).isEnd || (q == w && ports != []))
      && At(v, q).ports == (if q == w then InsertBackAll(At(u, q).ports, ports) else At(u, q).ports)
  {
    WalkedAt(u, w, |w| + 1, q);
    WalkedAt(u, w, |w| + 1, w);
  }

  lemma {:induction false} FileReadBack(u: Trie, t: Trie, ws: seq<Word>)
    requires [] in u && (ws != [] ==> Carried(ws[0])) && forall i | 1 <= i < |ws| :: Plain(ws[i])
    ensures Load(u, Lines(t, ws)) == WithLines(u, t, ws)
    decreases ws
  {
    if ws != [] {
      var r := Lines(t, ws[1..]);
      if ws[1..] != [] {
        var x := ws[1];
        assert Plain(x);
        assert r == Line(x, At(t, x).ports) + Lines(t, ws[1..][1..]);
        assert r[0] == x[0];
      }
      assert forall i | 1 <= i < |ws[1..]| :: ws[1..][i] == ws[i + 1];
      LineReadBack(u, ws[0], At(t, ws[0]).ports, r);
      WithLineAt(u, ws[0], At(t, ws[0]).ports, []);
      FileReadBack(WithLine(u, ws[0], At(t, ws[0]).ports), t, ws[1..]);
    } else {
      assert SkipSpace([]) == [];
    }
  }

  /** How many of the words extend q. */
  ghost function Extending(ws: seq<Word>, q: Word): nat
    decreases ws
  {
    if ws == [] then 0 else (if q <= ws[0] then 1 else 0) + Extending(ws[1..], q)
  }

  ghost predicate Distinct(ws: seq<Word>) {
    forall i, j | 0 <= i < j < |ws| :: ws[i] != ws[j]
  }

  lemma {:induction false} WithLinesAt(u: Trie, t: Trie, ws: seq<Word>, q: Word)
    requires [] in u && Distinct(ws) && (q in ws ==> At(u, q).ports == [])
    ensures var v := WithLines(u, t, ws);
      && (q in v <==> q in u || Extending(ws, q) > 0)
      && At(v, q).count == At(u, q).count + Extending(ws, q)
      && At(v, q).isEnd == (At(u, q).isEnd || (q in ws && At(t, q).ports != []))
      && At(v, q).ports == (if q in ws then InsertBackAll([], At(t, q).ports) else At(u, q).ports)
    decreases ws
  {
    if ws != [] {
      var w, ports := ws[0], At(t, ws[0]).ports;
      WithLineAt(u, w, ports, q);
      WithLineAt(u, w, ports, []);
      assert forall x :: x in ws <==> x == w || x in ws[1..];
      assert w !in ws[1..];
      assert Distinct(ws[1..]);
      if q == w {
        WithLinesUntouched(WithLine(u, w, ports), t, ws[1..], q);
      } else {
        WithLinesAt(WithLine(u, w, ports), t, ws[1..], q);
      }
    }
  }

  lemma {:induction false} WithLinesUntouched(u: Trie, t: Trie, ws: seq<Word>, q: Word)
    requires [] in u && q !in ws
    ensures var v := WithLines(u, t, ws);
      && (q in v <==> q in u || Extending(ws, q) > 0)
      && At(v, q) == At(u, q).(count := At(u, q).count + Extending(ws, q))
    decreases ws
  {
    if ws != [] {
      var w, ports := ws[0], At(t, ws[0]).ports;
      WithLineAt(u, w, ports, q);
      WithLineAt(u, w, ports, []);
      WithLinesUntouched(WithLine(u, w, ports), t, ws[1..], q);
    }
  }

  /** The marked words at or below q. */
  ghost function MarkedBelow(t: Trie, q: Word): set<Word> {
    set w | w in t && t[w].isEnd && q <= w
  }

  lemma {:induction false} ExtendingCounts(ws: seq<Word>, q: Word)
    requires Distinct(ws)
    ensures Extending(ws, q) == |set w | w in ws && q <= w|
    decreases ws
  {
    var all := set w | w in ws && q <= w;
    if ws == [] {
      assert all == {};
    } else {
      var rest := set w | w in ws[1..] && q <= w;
      ExtendingCounts(ws[1..], q);
      assert ws[0] !in rest;
      assert all == if q <= ws[0] then rest + {ws[0]} else rest;
    }
  }

  // ---------- saving and loading ----------

  /** No marked word but the least starts with a digit or a sign. */
  ghost predicate Apart(t: Trie) {
    forall x, w {:trigger Less(x, w)} | Shown(t, x) && Shown(t, w) && Less(x, w) && w != [] ::
      !IsDigit(w[0]) && w[0] != '-' && w[0] != '+'
  }

  /** Every marked word can be read. */
  ghost predicate Readable(t: Trie) {
    forall w | Shown(t, w) :: Carried(w)
  }

  ghost function Save(t: Trie): Word
    requires [] in t
  {
    Lines(t, Subtree(t, []))
  }

  lemma SubtreeIs(t: Trie, w: Word)
    requires Rooted(t) && [] in t && Readable(t)
    ensures Distinct(Subtree(t, [])) && (w in Subtree(t, []) <==> Shown(t, w))
    ensures Increasing(Subtree(t, []))
  {
    ListingFacts(t, [], 1);
    IncreasingNoDup(Listing(t, [], 1));
    assert Shown(t, []) ==> Carried([]);
    assert [] + Listing(t, [], 1) == Listing(t, [], 1);
    if Shown(t, w) {
      assert Carried(w);
    }
  }

  lemma SubtreeReadable(t: Trie)
    requires Rooted(t) && [] in t && Readable(t) && Apart(t)
    ensures var ws := Subtree(t, []); (ws != [] ==> Carried(ws[0])) && forall i | 1 <= i < |ws| :: Plain(ws[i])
  {
    var ws := Subtree(t, []);
    forall i | 0 <= i < |ws| ensures Carried(ws[i]) && (i > 0 ==> Plain(ws[i])) {
      SubtreeIs(t, ws[i]);
      assert ws[i] in ws;
      if i > 0 {
        SubtreeIs(t, ws[0]);
        assert ws[0] in ws && Less(ws[0], ws[i]);
      }
    }
  }

  /** The reloaded trie has a node for exactly the prefixes of marked words and counts exactly the marked
      words at or below each node. Of the ports of a word, further ones than three replace the third. */
  lemma SaveLoadRoundTrip(t: Trie, q: Word)
    requires Rooted(t) && [] in t && Readable(t) && Apart(t)
    ensures var v := Load(EMPTY_TRIE, Save(t));
      && (q in v <==> q == [] || exists w :: Shown(t, w) && q <= w)
      && (q in v ==> v[q].count == |MarkedBelow(t, q)| && (v[q].isEnd <==> Shown(t, q) && t[q].ports != [])
                     && v[q].ports == if Shown(t, q) then InsertBackAll([], t[q].ports) else [])
  {
    var ws := Subtree(t, []);
    forall w ensures w in ws <==> Shown(t, w) {
      SubtreeIs(t, w);
    }
    SubtreeIs(t, q);
    SubtreeReadable(t);
    FileReadBack(EMPTY_TRIE, t, ws);
    WithLinesAt(EMPTY_TRIE, t, ws, q);
    CountedBelow(t, ws, q);
  }

  lemma CountedBelow(t: Trie, ws: seq<Word>, q: Word)
    requires Distinct(ws) && forall w :: w in ws <==> Shown(t, w)
    ensures Extending(ws, q) == |MarkedBelow(t, q)|
    ensures Extending(ws, q) > 0 <==> exists w :: Shown(t, w) && q <= w
  {
    ExtendingCounts(ws, q);
    assert (set w | w in ws && q <= w) == MarkedBelow(t, q);
    if Extending(ws, q) > 0 {
      assert MarkedBelow(t, q) != {};
      var w :| w in MarkedBelow(t, q);
      assert Shown(t, w);
    }
    if w :| Shown(t, w) && q <= w {
      assert w in MarkedBelow(t, q);
    }
  }

  // ---------- exactly when everything comes back ----------

  /** q has the same mark, and when marked the same ports in the same order. */
  ghost predicate ComesBack(t: Trie, v: Trie, q: Word) {
    (Shown(v, q) <==> Shown(t, q)) && (Shown(t, q) ==> q in v && v[q].ports == t[q].ports)
  }

  ghost predicate OneToThree(t: Trie, w: Word) {
    Shown(t, w) ==> 1 <= |t[w].ports| <= 3
  }

  /** Reading ports changes the record of their word only. */
  lemma {:induction false} LoadPortsOthers(t: Trie, w: Word, s: Word, q: Word)
    requires q != w
    ensures Shown(LoadPorts(t, w, s).0, q) <==> Shown(t, q)
    decreases |s|
  {
    ScanIntShrinks(s);
    match ScanInt(s)
    case Match(x, rest) =>
      LoadPortsOthers(t[w := At(t, w).(isEnd := true, ports := InsertBack(At(t, w).ports, x))], w, rest, q);
    case NoMatch(rest) =>
    case Eof =>
  }

  lemma ScannedWord(s: Word)
    ensures ScanHeader(s, LITERAL).Match? ==> Carried(ScanHeader(s, LITERAL).value)
  {
    var r := SkipSpace(s);
    SkipSpaceShrinks(s);
    if r != [] {
      WordLengthNoSpace(r);
    }
  }

  lemma {:induction false} WordLengthNoSpace(s: Word)
    ensures forall i | 0 <= i < WordLength(s) :: !IsSpace(s[i])
    decreases s
  {
    if s != [] && !IsSpace(s[0]) {
      WordLengthNoSpace(s[1..]);
      assert forall i | 1 <= i < WordLength(s) :: s[i] == s[1..][i - 1];
    }
  }

  /** Whatever the file holds, every word it marks can be read. */
  lemma {:induction false} LoadedIsCarried(t: Trie, s: Word, q: Word)
    requires [] in t && Shown(Load(t, s), q)
    ensures Shown(t, q) || Carried(q)
    decreases |s|
  {
    ScanHeaderShrinks(s, LITERAL);
    ScannedWord(s);
    match ScanHeader(s, LITERAL)
    case Match(w, rest) =>
      var u := Walked(t, w, |w| + 1);
      LoadPortsShrinks(u, w, rest);
      WalkedAt(t, w, |w| + 1, q);
      WalkedAt(t, w, |w| + 1, []);
      LoadPortsRoot(u, w, rest);
      LoadedIsCarried(LoadPorts(u, w, rest).0, LoadPorts(u, w, rest).1, q);
      if q != w {
        LoadPortsOthers(u, w, rest, q);
      }
    case _ =>
  }

  lemma {:induction false} LoadPortsRoot(t: Trie, w: Word, s: Word)
    requires [] in t
    ensures [] in LoadPorts(t, w, s).0
    decreases |s|
  {
    ScanIntShrinks(s);
    match ScanInt(s)
    case Match(x, rest) =>
      LoadPortsRoot(t[w := At(t, w).(isEnd := true, ports := InsertBack(At(t, w).ports, x))], w, rest);
    case NoMatch(rest) =>
    case Eof =>
  }

  /** When no marked word but the least starts with a digit or a sign, everything comes back if and only if
      every marked word can be read and has one to three ports. */
  lemma SaveLoadExactly(t: Trie)
    requires Rooted(t) && [] in t && Apart(t)
    ensures (forall q :: ComesBack(t, Load(EMPTY_TRIE, Save(t)), q))
            <==> Readable(t) && forall w :: OneToThree(t, w)
  {
    var v := Load(EMPTY_TRIE, Save(t));
    if Readable(t) {
      if forall w :: OneToThree(t, w) {
        forall q ensures ComesBack(t, v, q) {
          BackExactly(t, q);
        }
      } else {
        var w :| !OneToThree(t, w);
        BackExactly(t, w);
        assert !ComesBack(t, v, w);
      }
    } else {
      var w :| Shown(t, w) && !Carried(w);
      NotBack(t, w);
    }
  }

  lemma NotBack(t: Trie, w: Word)
    requires [] in t && Shown(t, w) && !Carried(w)
    ensures !ComesBack(t, Load(EMPTY_TRIE, Save(t)), w)
  {
    if Shown(Load(EMPTY_TRIE, Save(t)), w) {
      LoadedIsCarried(EMPTY_TRIE, Save(t), w);
    }
  }

  lemma BackExactly(t: Trie, q: Word)
    requires Rooted(t) && [] in t && Readable(t) && Apart(t)
    ensures ComesBack(t, Load(EMPTY_TRIE, Save(t)), q) <==> OneToThree(t, q)
  {
    SaveLoadRoundTrip(t, q);
    if Shown(t, q) {
      PortsKeptExactly([], t[q].ports);
      assert [] + t[q].ports == t[q].ports;
      assert q <= q;
    }
  }

  /** One word, stored by four servers: its third port is lost. */
  lemma FourServers(w: Word, a: int, b: int, c: int, d: int)
    requires Carried(w) && a != b && a != c && a != d && b != c && b != d && c != d
    ensures var t := Insert(Insert(EMPTY_TRIE, w, a, b, c), w, d, d, d);
      var v := Load(EMPTY_TRIE, Save(t));
      && [] in t && Shown(t, w) && t[w].ports == [d, c, b, a]
      && Shown(v, w) && v[w].ports == [d, c, a]
  {
    var t := FourInserted(w, a, b, c, d);
    SaveLoadRoundTrip(t, w);
    FourBack(a, b, c, d);
    assert w <= w;
  }

  lemma FourInserted(w: Word, a: int, b: int, c: int, d: int) returns (t: Trie)
    requires Carried(w) && a != b && a != c && a != d && b != c && b != d && c != d
    ensures t == Insert(Insert(EMPTY_TRIE, w, a, b, c), w, d, d, d)
    ensures [] in t && Rooted(t) && Readable(t) && Apart(t)
    ensures Shown(t, w) && t[w].ports == [d, c, b, a]
  {
    var u, m := Insert(EMPTY_TRIE, w, a, b, c), multiset{w};
    t := Insert(u, w, d, d, d);
    TwoCopies(w, a, b, c, d);
    CountsRooted(t, m + m);
    ThreeInFront(a, b, c);
    InPrefixes(w, w);
    OneMark(t, m + m, w);
  }

  lemma OneMark(t: Trie, m: Bag, w: Word)
    requires Counts(t, m) && Carried(w) && forall x | x in m :: x == w
    ensures Readable(t) && Apart(t)
  {
    forall x | Shown(t, x) ensures x == w {
      assert Sound(t[x], m, x);
    }
    LessIrreflexive(w);
  }

  lemma TwoCopies(w: Word, a: int, b: int, c: int, d: int)
    ensures Counts(Insert(Insert(EMPTY_TRIE, w, a, b, c), w, d, d, d), multiset{w} + multiset{w})
  {
    EmptyCounts();
    InsertCounts(EMPTY_TRIE, multiset{}, w, a, b, c);
    assert multiset{} + multiset{w} == multiset{w};
    InsertCounts(Insert(EMPTY_TRIE, w, a, b, c), multiset{w}, w, d, d, d);
  }

  lemma ThreeInFront(a: int, b: int, c: int)
    requires a != b && a != c && b != c
    ensures AddPorts([], a, b, c) == [c, b, a]
  {}

  lemma FourBack(a: int, b: int, c: int, d: int)
    ensures InsertBackAll([], [d, c, b, a]) == [d, c, a]
  {
    ThreePorts([], [d, c, b]);
    assert InsertBackAll([d, c, b], [a]) == [d, c, a];
    assert [d, c, b, a][1..] == [c, b, a] && [c, b, a][1..] == [b, a] && [b, a][1..] == [a];
    assert InsertBackAll([d, c], [b, a]) == InsertBackAll([d, c, b], [a]);
    assert InsertBackAll([d], [c, b, a]) == InsertBackAll([d, c], [b, a]);
  }
}
