/** Exactly when a saved trie comes back: a word that looks like a number is taken for ports of the line
    before it, and then at least one word is lost. */
module TrieTextExact {
  import opened Words
  import opened TrieModel
  import opened TrieWalk
  import opened TrieReading
  import opened CText
  import opened TrieText

  /** The word starts like an integer. */
  ghost predicate NumberLike(w: Word) {
    w != [] && (IsDigit(w[0]) || w[0] == '-' || w[0] == '+')
  }

  /** What is left of u when a scan has eaten into it, or left it alone because it is no number. */
  ghost predicate LeftOf(v: Word, u: Word) {
    if NumberLike(u) then |v| < |u| else v == u && u != []
  }

  ghost predicate NoSpace(u: Word) {
    forall i | 0 <= i < |u| :: !IsSpace(u[i])
  }

  // ---------- where a scan for ports stops ----------

  lemma {:induction false} DigitsStop(acc: nat, u: Word, r: Word) returns (v: Word)
    requires r != [] && !IsDigit(r[0]) && NoSpace(u)
    ensures ScanDigits(acc, u + r).1 == v + r && NoSpace(v) && |v| <= |u|
    ensures u != [] && IsDigit(u[0]) ==> |v| < |u|
    decreases u
  {
    if u != [] && IsDigit(u[0]) {
      assert (u + r)[1..] == u[1..] + r;
      v := DigitsStop(acc * 10 + (u[0] as int - 48), u[1..], r);
    } else {
      v := u;
      assert u == [] ==> u + r == r;
    }
  }

  /** A scan that starts in front of the word u, which a literal follows. */
  lemma IntStops(u: Word, body: Word) returns (v: Word)
    requires NoSpace(u) && u != []
    ensures NoSpace(v)
    ensures match ScanInt(u + (HEADER + body))
            case Match(_, rest) => NumberLike(u) && |v| < |u| && rest == v + (HEADER + body)
            case NoMatch(rest) => LeftOf(v, u) && rest == v + (HEADER + body)
            case Eof => false
  {
    var r := HEADER + body;
    var s := u + r;
    assert SkipSpace(s) == s && r[0] == ' ';
    assert s[1..] == u[1..] + r;
    if u[0] == '-' || u[0] == '+' {
      v := DigitsStop(0, u[1..], r);
      assert |u| > 1 ==> s[1] == u[1];
      if |u| == 1 || !IsDigit(u[1]) {
        v := u[1..];
      }
    } else if IsDigit(u[0]) {
      v := DigitsStop(0, u, r);
    } else {
      v := u;
    }
  }

  lemma NothingStops(body: Word)
    ensures ScanInt(HEADER + body) == NoMatch(LITERAL + body)
  {
    assert (HEADER + body)[1..] == LITERAL + body;
    assert SkipSpace(LITERAL + body) == LITERAL + body;
    assert SkipSpace(HEADER + body) == LITERAL + body;
  }

  /** Reading ports from the start of the line of u: the loop ends somewhere in u, or at the literal. */
  lemma {:induction false} PortsStop(t: Trie, w: Word, u: Word, body: Word) returns (v: Word)
    requires NoSpace(u)
    ensures NoSpace(v) && (LoadPorts(t, w, u + (HEADER + body)).1 == LITERAL + body
            || (LeftOf(v, u) && LoadPorts(t, w, u + (HEADER + body)).1 == v + (HEADER + body)))
    decreases |u|
  {
    if u == [] {
      v := [];
      NothingStops(body);
      assert u + (HEADER + body) == HEADER + body;
    } else {
      v := IntStops(u, body);
      match ScanInt(u + (HEADER + body))
      case Match(x, rest) =>
        v := PortsStop(t[w := At(t, w).(isEnd := true, ports := InsertBack(At(t, w).ports, x))], w, v, body);
      case NoMatch(rest) =>
    }
  }

  /** The ports of a line are read, and the loop goes on with what follows. */
  lemma {:induction false} PortsGoOn(t: Trie, w: Word, ports: seq<int>, r: Word) returns (u: Trie)
    ensures LoadPorts(t, w, PortsText(ports) + ['\n'] + r) == LoadPorts(u, w, r)
    decreases ports
  {
    if ports == [] {
      u := t;
      var s := ['\n'] + r;
      assert PortsText(ports) + ['\n'] + r == s && s[1..] == r;
      assert SkipSpace(s) == SkipSpace(r);
      LoadPortsSkips(t, w, s);
      LoadPortsSkips(t, w, r);
    } else {
      var x, tail := ports[0], PortsText(ports[1..]) + ['\n'] + r;
      assert PortsText(ports) + ['\n'] + r == [' '] + Dec(x) + tail;
      assert tail[0] == ' ' || tail[0] == '\n';
      ScanIntReads(x, tail);
      u := PortsGoOn(t[w := At(t, w).(isEnd := true, ports := InsertBack(At(t, w).ports, x))], w, ports[1..], r);
    }
  }

  // ---------- where a scan for a word starts ----------

  ghost function Body(t: Trie, p: seq<int>, more: seq<Word>): Word {
    PortsText(p) + ['\n'] + Lines(t, more)
  }

  /** The reader is at, or in, the word of a line with the given rest; the word it is about to read is not q. */
  ghost predicate Before(s: Word, v: Word, body: Word, q: Word) {
    || s == LITERAL + body
    || (NoSpace(v) && v != q && s == v + (HEADER + body))
  }

  /** It reads another word than q, which looks like a number, and goes on with the ports of the line. */
  lemma ReadsOther(s: Word, v: Word, p: seq<int>, r: Word, q: Word)
    requires p != [] && NumberLike(q) && Before(s, v, PortsText(p) + ['\n'] + r, q)
    ensures var h := ScanHeader(s, LITERAL);
      h.Match? && h.value != q && h.rest == SkipSpace(PortsText(p) + ['\n'] + r)
  {
    var body := PortsText(p) + ['\n'] + r;
    if v != [] && s == v + (HEADER + body) {
      WordThenLiteral(v, body);
    } else {
      assert s == LITERAL + body || s == HEADER + body;
      assert (HEADER + body)[1..] == LITERAL + body;
      assert SkipSpace(LITERAL + body) == LITERAL + body;
      assert SkipSpace(s) == LITERAL + body;
      LiteralAsWord(p, r);
    }
  }

  lemma LiteralAsWord(p: seq<int>, r: Word)
    requires p != []
    ensures ScanHeader(LITERAL + (PortsText(p) + ['\n'] + r), LITERAL) ==
            Match(LITERAL, SkipSpace(PortsText(p) + ['\n'] + r))
  {
    var d, tail := Dec(p[0]), PortsText(p[1..]) + ['\n'] + r;
    FirstPortText(p, r);
    DecIsNoLetter(p[0]);
    LiteralThen(d + tail);
  }

  lemma FirstPortText(p: seq<int>, r: Word)
    requires p != []
    ensures PortsText(p) + ['\n'] + r == [' '] + (Dec(p[0]) + (PortsText(p[1..]) + ['\n'] + r))
  {}

  lemma LiteralThen(rest: Word)
    requires rest != [] && !IsSpace(rest[0]) && rest[0] != 'P'
    ensures ScanHeader(LITERAL + ([' '] + rest), LITERAL) == Match(LITERAL, SkipSpace([' '] + rest))
  {
    var body := [' '] + rest;
    var s := LITERAL + body;
    assert body[1..] == rest && SkipSpace(body) == rest;
    WordLengthIs(LITERAL, body);
    assert SkipSpace(s) == s && s[..|LITERAL|] == LITERAL && s[|LITERAL|..] == body;
  }

  lemma DecIsNoLetter(x: int)
    ensures Dec(x) != [] && !IsSpace(Dec(x)[0]) && Dec(x)[0] != 'P'
  {
    DecFacts(x);
    DecNatFacts(if x < 0 then -x else x);
    assert x >= 0 ==> IsDigit(DecNat(x)[0]);
  }

  // ---------- the longest such word is lost ----------

  /** The words still to come have ports, and none that looks like a number is longer than q. */
  ghost predicate Short(t: Trie, more: seq<Word>, q: Word) {
    forall i | 0 <= i < |more| ::
      Carried(more[i]) && At(t, more[i]).ports != [] && (NumberLike(more[i]) ==> |more[i]| <= |q|)
  }

  lemma {:induction false} NeverRead(u: Trie, t: Trie, s: Word, v: Word, p: seq<int>, more: seq<Word>, q: Word)
    requires [] in u && !Shown(u, q) && NumberLike(q) && p != [] && Short(t, more, q)
    requires Before(s, v, Body(t, p, more), q)
    ensures !Shown(Load(u, s), q)
    decreases |more|
  {
    var r := Lines(t, more);
    ReadsOther(s, v, p, r, q);
    var h := ScanHeader(s, LITERAL);
    var w := h.value;
    var u1 := Walked(u, w, |w| + 1);
    WalkedAt(u, w, |w| + 1, q);
    WalkedAt(u, w, |w| + 1, []);
    LoadPortsSkips(u1, w, Body(t, p, more));
    var u2 := PortsGoOn(u1, w, p, r);
    LoadPortsOthers(u1, w, h.rest, q);
    LoadPortsRoot(u1, w, h.rest);
    var (u3, rest) := LoadPorts(u1, w, h.rest);
    assert Load(u, s) == Load(u3, rest);
    assert rest == LoadPorts(u2, w, r).1;
    if more == [] {
      assert r == [] && rest == [];
      EndOfFile(u3);
    } else {
      var x := NextStarts(u2, w, t, more, q);
      assert Short(t, more[1..], q);
      NeverRead(u3, t, rest, x, At(t, more[0]).ports, more[1..], q);
    }
  }

  lemma EndOfFile(u: Trie)
    ensures Load(u, []) == u
  {
    assert SkipSpace([]) == [];
  }

  lemma FirstLine(t: Trie, ws: seq<Word>)
    requires ws != []
    ensures Lines(t, ws) == ws[0] + (HEADER + Body(t, At(t, ws[0]).ports, ws[1..]))
  {
    Regroup(ws[0], HEADER, PortsText(At(t, ws[0]).ports), ['\n'], Lines(t, ws[1..]));
  }

  lemma Regroup(a: Word, b: Word, c: Word, d: Word, e: Word)
    ensures (a + b + c + d) + e == a + (b + (c + d + e))
  {}

  lemma NextStarts(u: Trie, w: Word, t: Trie, more: seq<Word>, q: Word) returns (x: Word)
    requires more != [] && NumberLike(q) && Short(t, more, q)
    ensures Before(LoadPorts(u, w, Lines(t, more)).1, x, Body(t, At(t, more[0]).ports, more[1..]), q)
  {
    var y, body := more[0], Body(t, At(t, more[0]).ports, more[1..]);
    FirstLine(t, more);
    x := PortsStop(u, w, y, body);
  }

  // ---------- exactly when everything comes back ----------

  /** The longest word from index i on that looks like a number. */
  lemma {:induction false} LongestNumber(ws: seq<Word>, i: nat, j: nat) returns (k: nat)
    requires 1 <= i <= j < |ws| && NumberLike(ws[j])
    ensures 1 <= k < |ws| && NumberLike(ws[k])
    ensures forall l | i <= l < |ws| && NumberLike(ws[l]) :: |ws[l]| <= |ws[k]|
    decreases |ws| - i
  {
    k := j;
    if i + 1 < |ws| {
      if j > i {
        k := LongestNumber(ws, i + 1, j);
      } else if l :| i < l < |ws| && NumberLike(ws[l]) {
        k := LongestNumber(ws, i + 1, l);
      }
      if NumberLike(ws[i]) && |ws[k]| < |ws[i]| {
        k := i;
      }
    }
  }

  /** If a marked word other than the least looks like a number, the longest such word is lost. */
  lemma NumberIsLost(t: Trie, x: Word, w: Word) returns (q: Word)
    requires Rooted(t) && [] in t && Readable(t) && MarkedHavePorts(t)
    requires Shown(t, x) && Shown(t, w) && Less(x, w) && NumberLike(w)
    ensures Shown(t, q) && !Shown(Load(EMPTY_TRIE, Save(t)), q)
    ensures NumberLike(q) && exists y :: Shown(t, y) && Less(y, q)
  {
    var ws := Subtree(t, []);
    forall y ensures y in ws <==> Shown(t, y) {
      SubtreeIs(t, y);
    }
    SubtreeIs(t, []);
    var j := NotFirst(ws, x, w);
    var k := LongestNumber(ws, 1, j);
    q := ws[k];
    assert q in ws;
    forall i | 0 <= i < |ws| ensures Carried(ws[i]) && At(t, ws[i]).ports != [] {
      assert ws[i] in ws;
    }
    assert ws[0] in ws && Less(ws[0], q);
    assert ws[0] != q;
    LostFrom(t, ws, q);
  }

  lemma NotFirst(ws: seq<Word>, x: Word, w: Word) returns (j: nat)
    requires Increasing(ws) && x in ws && w in ws && Less(x, w)
    ensures 1 <= j < |ws| && ws[j] == w
  {
    j :| 0 <= j < |ws| && ws[j] == w;
    if j == 0 {
      var i :| 0 <= i < |ws| && ws[i] == x;
      if i > 0 {
        LessTrans(x, w, x);
      }
      LessIrreflexive(x);
    }
  }

  lemma LostFrom(t: Trie, ws: seq<Word>, q: Word)
    requires ws != [] && ws[0] != q && NumberLike(q) && Carried(ws[0]) && At(t, ws[0]).ports != []
    requires Short(t, ws[1..], q)
    ensures !Shown(Load(EMPTY_TRIE, Lines(t, ws)), q)
  {
    var p, more := At(t, ws[0]).ports, ws[1..];
    FirstLine(t, ws);
    NeverRead(EMPTY_TRIE, t, Lines(t, ws), ws[0], p, more, q);
  }

  /** So of two names stored on one server the later one is lost when it looks like a number. */
  lemma TwoNames(x: Word, w: Word)
    requires Carried(x) && Carried(w) && Less(x, w) && NumberLike(w)
    ensures var t := Insert(Insert(EMPTY_TRIE, x, 0, 0, 0), w, 0, 0, 0);
      [] in t && Shown(t, w) && !Shown(Load(EMPTY_TRIE, Save(t)), w)
  {
    var t := Insert(Insert(EMPTY_TRIE, x, 0, 0, 0), w, 0, 0, 0);
    TwoStored(x, w);
    var q := NumberIsLost(t, x, w);
    var y :| Shown(t, y) && Less(y, q);
    if q == x {
      LessIrreflexive(x);
      LessTrans(x, w, x);
    }
  }

  lemma TwoStored(x: Word, w: Word)
    requires Carried(x) && Carried(w)
    ensures var t := Insert(Insert(EMPTY_TRIE, x, 0, 0, 0), w, 0, 0, 0);
      && [] in t && Rooted(t) && Readable(t) && MarkedHavePorts(t)
      && forall y :: Shown(t, y) <==> y == x || y == w
  {
    var u := Insert(EMPTY_TRIE, x, 0, 0, 0);
    var t, m := Insert(u, w, 0, 0, 0), multiset{} + multiset{x} + multiset{w};
    EmptyCounts();
    InsertCounts(EMPTY_TRIE, multiset{}, x, 0, 0, 0);
    InsertCounts(u, multiset{} + multiset{x}, w, 0, 0, 0);
    CountsRooted(t, m);
    InPrefixes(x, x);
    InPrefixes(w, w);
    forall y ensures (Shown(t, y) <==> y == x || y == w) && (Shown(t, y) ==> t[y].ports != []) {
      if Shown(t, y) {
        assert Sound(t[y], m, y) && y in m;
      }
    }
  }

  /** A saved trie whose marked words have ports comes back with all marks and ports if and only if every marked
      word can be read, none but the least looks like a number, and none has more than three ports. */
  lemma SaveLoadIff(t: Trie)
    requires Rooted(t) && [] in t && MarkedHavePorts(t)
    ensures (forall q :: ComesBack(t, Load(EMPTY_TRIE, Save(t)), q))
            <==> Readable(t) && Apart(t) && forall w :: OneToThree(t, w)
  {
    if Apart(t) {
      SaveLoadExactly(t);
    } else if Readable(t) {
      var x, w :| Shown(t, x) && Shown(t, w) && Less(x, w) && NumberLike(w);
      var q := NumberIsLost(t, x, w);
      assert !ComesBack(t, Load(EMPTY_TRIE, Save(t)), q);
    } else {
      var w :| Shown(t, w) && !Carried(w);
      NotBack(t, w);
    }
  }

  // ---------- the reloaded trie is sound ----------

  ghost function MarkedWords(t: Trie): set<Word> {
    set w | w in t && t[w].isEnd
  }

  lemma {:induction false} BelowSet(words: set<Word>, p: Word)
    ensures Below(multiset(words), p) == |set w | w in words && p <= w|
    decreases words
  {
    if x :| x in words {
      var rest := words - {x};
      BelowSet(rest, p);
      assert multiset(words) - multiset{x} == multiset(rest);
      BelowRemove(multiset(words), x, p);
      var below := set w | w in words && p <= w;
      assert (set w | w in rest && p <= w) == below - {x};
    } else {
      assert multiset(words) == multiset{};
      assert (set w | w in words && p <= w) == {};
    }
  }

  /** Dropping ports does not double any. */
  lemma {:induction false} BackNoDup(first: seq<int>, ports: seq<int>)
    requires NoDup(first + ports) && |first| <= 3
    ensures NoDup(InsertBackAll(first, ports)) && (ports != [] ==> InsertBackAll(first, ports) != [])
    decreases ports
  {
    if ports != [] {
      var next := InsertBack(first, ports[0]);
      var all, fewer := first + ports, next + ports[1..];
      forall i, j | 0 <= i < j < |fewer| ensures fewer[i] != fewer[j] {
        var d := |all| - |fewer|;
        assert forall k | 0 <= k < |fewer| :: fewer[k] == all[if k < 2 && k < |first| then k else k + d];
      }
      BackNoDup(next, ports[1..]);
      PortsKeptExactly(next, ports[1..]);
    } else {
      assert first + ports == first;
    }
  }

  /** A saved trie that is sound is sound again after loading, with one outstanding copy of each marked word: so
      all that is proved about insertions and deletions holds for it. */
  lemma ReloadedCounts(t: Trie, m: Bag)
    requires Counts(t, m) && Readable(t) && Apart(t)
    ensures Counts(Load(EMPTY_TRIE, Save(t)), multiset(MarkedWords(t)))
  {
    var v, n := Load(EMPTY_TRIE, Save(t)), multiset(MarkedWords(t));
    CountsRooted(t, m);
    forall q ensures (q in v <==> q == [] || Below(n, q) > 0) && (q in v ==> Sound(v[q], n, q)) {
      ReloadedAt(t, m, q);
    }
  }

  lemma PortsReloaded(t: Trie, m: Bag, q: Word)
    requires Counts(t, m) && Shown(t, q)
    ensures NoDup(InsertBackAll([], t[q].ports)) && (t[q].ports != [] ==> InsertBackAll([], t[q].ports) != [])
  {
    assert Sound(t[q], m, q) && [] + t[q].ports == t[q].ports;
    BackNoDup([], t[q].ports);
  }

  lemma ReloadedAt(t: Trie, m: Bag, q: Word)
    requires Counts(t, m) && Rooted(t) && Readable(t) && Apart(t)
    ensures var v, n := Load(EMPTY_TRIE, Save(t)), multiset(MarkedWords(t));
      (q in v <==> q == [] || Below(n, q) > 0) && (q in v ==> Sound(v[q], n, q))
  {
    var words := MarkedWords(t);
    SaveLoadRoundTrip(t, q);
    BelowSet(words, q);
    assert (set w | w in words && q <= w) == MarkedBelow(t, q);
    BelowPositive(multiset(words), q);
    if Shown(t, q) {
      PortsReloaded(t, m, q);
    }
    if x :| Shown(t, x) && q <= x {
      assert x in multiset(words);
    }
    if x :| x in multiset(words) && q <= x {
      assert Shown(t, x);
    }
  }

  // ---------- words without the literal ----------

  function Spaced(ws: seq<Word>): Word {
    if ws == [] then [] else ws[0] + [' '] + Spaced(ws[1..])
  }

  /** Every node on the path of each word is linked and counted. */
  ghost function AllLinked(t: Trie, ws: seq<Word>): Trie
    decreases ws
  {
    if ws == [] then t else AllLinked(Walked(t, ws[0], |ws[0]| + 1), ws[1..])
  }

  /** The reader does not insist on the literal: of a file of bare words it links and counts every word, and marks
      none. */
  lemma {:induction false} BareWords(t: Trie, ws: seq<Word>)
    requires forall i | 0 <= i < |ws| :: Plain(ws[i]) && ws[i][0] != 'P'
    ensures Load(t, Spaced(ws)) == AllLinked(t, ws)
    decreases ws
  {
    if ws != [] {
      var w, rest := ws[0], Spaced(ws[1..]);
      assert Plain(w);
      if ws[1..] != [] {
        assert Plain(ws[1]) && ws[1..][0] == ws[1];
      }
      assert forall i | 0 <= i < |ws[1..]| :: ws[1..][i] == ws[i + 1];
      BareStep(t, w, rest);
      BareWords(Walked(t, w, |w| + 1), ws[1..]);
    } else {
      assert SkipSpace([]) == [];
    }
  }

  /** What may follow a bare word. */
  ghost predicate Bare(rest: Word) {
    Follows(rest) && (rest != [] ==> rest[0] != 'P')
  }

  lemma BareStep(t: Trie, w: Word, rest: Word)
    requires Carried(w) && Bare(rest)
    ensures Load(t, w + [' '] + rest) == Load(Walked(t, w, |w| + 1), rest)
  {
    BareHeader(w, rest);
    BarePorts(Walked(t, w, |w| + 1), w, rest);
  }

  lemma BarePorts(u: Trie, w: Word, rest: Word)
    requires Bare(rest)
    ensures LoadPorts(u, w, rest) == (u, rest)
  {
    assert SkipSpace(rest) == rest;
  }

  lemma BareHeader(w: Word, rest: Word)
    requires Carried(w) && (rest == [] || (!IsSpace(rest[0]) && rest[0] != 'P'))
    ensures ScanHeader(w + [' '] + rest, LITERAL) == Match(w, rest)
  {
    var s := w + ([' '] + rest);
    assert w + [' '] + rest == s;
    WordLengthIs(w, [' '] + rest);
    assert SkipSpace(s) == s && s[..|w|] == w && s[|w|..] == [' '] + rest;
    assert ([' '] + rest)[1..] == rest && SkipSpace(rest) == rest;
    assert SkipSpace([' '] + rest) == SkipSpace(rest);
  }
}
