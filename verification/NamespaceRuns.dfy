/** Whole runs of the namespace, and the exact effect of its two delicate commands. */
module NamespaceRuns {
  import opened Words
  import opened PathNames
  import opened TrieModel
  import opened TrieWalk
  import opened TrieReading
  import opened NamespaceModel
  import opened Namespace

  // ---------- every admissible run ----------

  lemma StepKeeps(s: State, c: Command, s': State)
    requires Inv(s) && Admissible(s, c) && Step(s, c, s')
    ensures Inv(s')
  {
    match c
    case Create(path, index, done) => if done { CreateKeeps(s, path, index); }
    case Registration(listing, port) => RegistrationKeeps(s, listing, port);
    case DeleteDir(path) => if HasPorts(s.t, path) { DeleteDirKeeps(s, path, s'); }
    case DeleteFile(path, known) =>
      if known {
        DeleteFileHits(s, path);
        DeleteFileKeeps(s, path);
      }
    case CopyDir(path1, path2, answer) =>
      if path1 in s.t && path2 in s.t {
        CopyIntoFacts(s, Collected(s.t, ListedBelow(s.t, path1)), path2, answer, 0);
      } else {
        assert s.m + multiset{} == s.m;
      }
  }

  ghost predicate Run(states: seq<State>, commands: seq<Command>) {
    && |states| == |commands| + 1 && states[0] == State(EMPTY_TRIE, multiset{})
    && forall k {:trigger StepAt(states, commands, k)} | 0 <= k < |commands| :: StepAt(states, commands, k)
  }

  ghost predicate StepAt(states: seq<State>, commands: seq<Command>, k: nat)
    requires k < |commands| && |states| == |commands| + 1
  {
    Admissible(states[k], commands[k]) && Step(states[k], commands[k], states[k + 1])
  }

  /** In every state of every admissible run the counts are right and every listed path has all its
      ancestor directories listed. */
  lemma {:induction false} RunKeeps(states: seq<State>, commands: seq<Command>, k: nat)
    requires Run(states, commands) && k < |states|
    ensures InvAt(states, k)
  {
    if k == 0 {
      EmptyKeeps(states);
    } else {
      RunKeeps(states, commands, k - 1);
      StepAtKeeps(states, commands, k - 1);
    }
  }

  ghost predicate InvAt(states: seq<State>, k: nat) {
    k < |states| && Inv(states[k])
  }

  lemma EmptyKeeps(states: seq<State>)
    requires |states| > 0 && states[0] == State(EMPTY_TRIE, multiset{})
    ensures InvAt(states, 0)
  {
    EmptyCounts();
  }

  lemma StepAtKeeps(states: seq<State>, commands: seq<Command>, k: nat)
    requires Run(states, commands) && k < |commands|
    requires InvAt(states, k)
    ensures InvAt(states, k + 1)
  {
    assert StepAt(states, commands, k);
    StepKeeps(states[k], commands[k], states[k + 1]);
  }

  // ---------- copydir ----------

  /** w is a component prefix of the target of some path listed below path1. */
  ghost predicate Created(t: Trie, path1: Word, path2: Word, w: Word) {
    exists x :: Shown(t, x) && Ancestor(path1, x) && Component(w, Target(path2, x))
  }

  lemma CollectedIn(t: Trie, ws: seq<Word>, x: Word)
    ensures (exists k :: 0 <= k < |Collected(t, ws)| && Collected(t, ws)[k].val == x) <==> x in ws
    decreases ws
  {
    if ws != [] {
      CollectedIn(t, ws[1..], x);
      var c, d := Collected(t, ws), Collected(t, ws[1..]);
      assert c[|c| - 1].val == ws[0];
      if exists k :: 0 <= k < |d| && d[k].val == x {
        var k :| 0 <= k < |d| && d[k].val == x;
        assert c[k].val == x;
      }
      if exists k :: 0 <= k < |c| && c[k].val == x {
        var k :| 0 <= k < |c| && c[k].val == x;
        if k < |d| {
          assert d[k].val == x;
        }
      }
    }
  }

  lemma ListedBelowAre(s: State, dir: Word, x: Word)
    requires Inv(s) && dir != []
    ensures x in ListedBelow(s.t, dir) <==> Shown(s.t, x) && Ancestor(dir, x)
  {
    CountsRooted(s.t, s.m);
    if dir + [SLASH] in s.t {
      ListingFacts(s.t, dir + [SLASH], 1);
      if Shown(s.t, x) {
        assert Normal(x);
      }
    }
  }

  lemma NormalTarget(path2: Word, x: Word)
    requires Normal(path2) && Normal(x)
    ensures Normal(Target(path2, x))
  {
    var w, n := Target(path2, x), |path2| + 1;
    assert w[0] == path2[0] && w[|w| - 1] == x[|x| - 1];
    forall i | 0 <= i < |w| - 1 ensures !(w[i] == SLASH && w[i + 1] == SLASH) {
      if i < |path2| - 1 {
        assert w[i] == path2[i] && w[i + 1] == path2[i + 1];
      } else if i == |path2| - 1 {
        assert w[i] == path2[i];
      } else if i == |path2| {
        assert w[i + 1] == x[0];
      } else {
        assert w[i] == x[i - n] && w[i + 1] == x[i + 1 - n];
      }
    }
  }

  lemma CellIs(t: Trie, ws: seq<Word>, k: nat) returns (x: Word)
    requires k < |Collected(t, ws)|
    ensures x in ws && Collected(t, ws)[k].val == x
  {
    x := Collected(t, ws)[k].val;
    CollectedIn(t, ws, x);
  }

  lemma ListedIsNormal(s: State, x: Word)
    requires Inv(s) && Shown(s.t, x)
    ensures x in s.m && Normal(x)
  {
    assert Sound(s.t[x], s.m, x);
  }

  lemma CopiedAre(s: State, path1: Word, path2: Word, w: Word)
    requires Inv(s) && path1 != [] && Normal(path2)
    ensures CopiedWord(Collected(s.t, ListedBelow(s.t, path1)), path2, w) <==> Created(s.t, path1, path2, w)
  {
    var ws := ListedBelow(s.t, path1);
    var cells := Collected(s.t, ws);
    if CopiedWord(cells, path2, w) {
      var k :| 0 <= k < |cells| && w in ComponentPaths(Target(path2, cells[k].val));
      var x := CellIs(s.t, ws, k);
      ListedBelowAre(s, path1, x);
      ListedIsNormal(s, x);
      NormalTarget(path2, x);
      ComponentPathsOfNormal(Target(path2, x), w);
    }
    if Created(s.t, path1, path2, w) {
      var x :| Shown(s.t, x) && Ancestor(path1, x) && Component(w, Target(path2, x));
      ListedBelowAre(s, path1, x);
      CollectedIn(s.t, ws, x);
      NormalTarget(path2, x);
      ComponentPathsOfNormal(Target(path2, x), w);
    }
  }

  /** A copydir whose creates are all acknowledged adds exactly the component prefixes of path2/x for
      each x listed below path1. */
  lemma CopyDirAdds(s: State, path1: Word, path2: Word, answer: nat -> Answer, w: Word)
    requires Inv(s) && AllYes(answer) && path1 in s.t && path2 in s.t && path1 != [] && Normal(path2)
    ensures Shown(CopyDirDone(s.t, path1, path2, answer), w)
            <==> Shown(s.t, w) || Created(s.t, path1, path2, w)
    ensures w in s.t && !Created(s.t, path1, path2, w) ==> SameRecord(s.t, CopyDirDone(s.t, path1, path2, answer), w)
  {
    CopyIntoFacts(s, Collected(s.t, ListedBelow(s.t, path1)), path2, answer, 0);
    CopiedAre(s, path1, path2, w);
  }

  /** Copying path1 into path2 lands below path1 itself. */
  predicate IntoItself(path1: Word, path2: Word) {
    path1 + [SLASH] <= Target(path2, path1 + [SLASH])
  }

  lemma GuardExcludesItself(path1: Word, path2: Word)
    requires Unrelated(path1, path2)
    ensures !IntoItself(path1, path2)
  {
    var p1, p2 := path1 + [SLASH], path2 + [SLASH];
    if IntoItself(path1, path2) {
      var w := Target(path2, p1);
      assert w == p2 + p1;
      PrefixesComparable(p1, p2, w);
    }
  }

  lemma CreatedOutside(t: Trie, path1: Word, path2: Word, w: Word)
    requires path1 != [] && !IntoItself(path1, path2) && path1 + [SLASH] <= w
    ensures !Created(t, path1, path2, w)
  {
    if Created(t, path1, path2, w) {
      var x :| Shown(t, x) && Ancestor(path1, x) && Component(w, Target(path2, x));
      var p1, full := path1 + [SLASH], Target(path2, x);
      var p := Target(path2, p1);
      assert p <= full by {
        assert x == p1 + x[|p1|..];
        assert full == p + x[|p1|..];
      }
      PrefixTrans(p1, w, full);
      PrefixesComparable(p1, p, full);
      assert false;
    }
  }

  /** A copydir that passes the client's check leaves the listing below the source as it is, whatever
      the storage servers answer. With a second path it leaves the records there alone, too. */
  lemma GuardedCopyKeepsSource(s: State, path1: Word, path2: Word, answer: nat -> Answer, w: Word)
    requires Inv(s) && path1 in s.t && path2 in s.t && path1 != [] && (Normal(path2) || path2 == [])
    requires Unrelated(path1, path2) && path1 + [SLASH] <= w
    ensures var t' := CopyDirDone(s.t, path1, path2, answer);
      (Shown(t', w) <==> Shown(s.t, w)) && (w in s.t && path2 != [] ==> SameRecord(s.t, t', w))
  {
    if path2 == [] {
      NoSecondPath(s, path1, answer, w);
    } else {
      GuardExcludesItself(path1, path2);
      CreatedOutside(s.t, path1, path2, w);
      CopiedAre(s, path1, path2, w);
      CopyIntoFacts(s, Collected(s.t, ListedBelow(s.t, path1)), path2, answer, 0);
    }
  }

  // ---------- copydir without a second path ----------

  /** A leading slash makes no difference to the components of a path. */
  lemma LeadingSlash(x: Word)
    ensures ComponentPaths(Target([], x)) == ComponentPaths(x)
  {
    var w := Target([], x);
    assert w == [SLASH] + x && w[1..] == x;
  }

  /** What is copied to nowhere is listed already. */
  lemma CopiedNowhereIsListed(s: State, path1: Word, w: Word)
    requires Inv(s) && path1 != [] && CopiedWord(Collected(s.t, ListedBelow(s.t, path1)), [], w)
    ensures Shown(s.t, w)
  {
    var ws := ListedBelow(s.t, path1);
    var cells := Collected(s.t, ws);
    var k :| 0 <= k < |cells| && w in ComponentPaths(Target([], cells[k].val));
    var x := CellIs(s.t, ws, k);
    ListedBelowAre(s, path1, x);
    LeadingSlash(x);
    ListedIsNormal(s, x);
    ComponentPathsOfNormal(x, w);
  }

  /** And whatever is listed below the source is copied. */
  lemma ListedIsCopiedNowhere(s: State, path1: Word, w: Word)
    requires Inv(s) && path1 != [] && Shown(s.t, w) && Ancestor(path1, w)
    ensures CopiedWord(Collected(s.t, ListedBelow(s.t, path1)), [], w)
  {
    var cells := Collected(s.t, ListedBelow(s.t, path1));
    ListedBelowAre(s, path1, w);
    CollectedIn(s.t, ListedBelow(s.t, path1), w);
    var k :| 0 <= k < |cells| && cells[k].val == w;
    LeadingSlash(w);
    ListedIsNormal(s, w);
    ComponentPathsOfNormal(w, w);
    assert w in ComponentPaths(Target([], cells[k].val));
  }

  /** Without a second path the listed paths are created again where they are, so the listing stays. */
  lemma NoSecondPath(s: State, path1: Word, answer: nat -> Answer, w: Word)
    requires Inv(s) && path1 in s.t && path1 != []
    ensures Shown(CopyDirDone(s.t, path1, [], answer), w) <==> Shown(s.t, w)
  {
    if CopiedWord(Collected(s.t, ListedBelow(s.t, path1)), [], w) {
      CopiedNowhereIsListed(s, path1, w);
    }
    CopyIntoFacts(s, Collected(s.t, ListedBelow(s.t, path1)), [], answer, 0);
  }

  lemma {:induction false} InsertAllPortsAre(t: Trie, ws: seq<Word>, i: int, q: Word)
    ensures At(InsertAll(t, ws, i), q).ports == if q in ws then AddPort(At(t, q).ports, i) else At(t, q).ports
    decreases ws
  {
    if ws != [] {
      var u := Insert(t, ws[0], i, i, i);
      InPrefixes(q, ws[0]);
      InsertAllPortsAre(u, ws[1..], i, q);
      assert q in ws <==> q == ws[0] || q in ws[1..];
    }
  }

  ghost predicate AlwaysBy(answer: nat -> Answer, i: int) {
    forall k :: answer(k) == Acknowledged(i, true)
  }

  lemma {:induction false} CopyIntoPortsAre(
    t: Trie, cells: seq<Entry>, path2: Word, answer: nat -> Answer, k: nat, i: int, q: Word)
    requires AlwaysBy(answer, i)
    ensures At(CopyInto(t, cells, path2, answer, k), q).ports
            == if CopiedWord(cells, path2, q) then AddPort(At(t, q).ports, i) else At(t, q).ports
    decreases cells
  {
    if cells != [] {
      var ws := ComponentPaths(Target(path2, cells[0].val));
      assert answer(k) == Acknowledged(i, true);
      InsertAllPortsAre(t, ws, i, q);
      CopyIntoPortsAre(InsertAll(t, ws, i), cells[1..], path2, answer, k + 1, i, q);
      CopiedSplit(cells, path2, q);
    }
  }

  /** But the records below the source do not stay: with all creates going to server i, the record of a listed
      path is the same afterwards if and only if it knew that server before. */
  lemma NoSecondPathRecords(s: State, path1: Word, answer: nat -> Answer, i: int, w: Word)
    requires Inv(s) && path1 in s.t && path1 != [] && AlwaysBy(answer, i)
    requires Shown(s.t, w) && Ancestor(path1, w)
    ensures SameRecord(s.t, CopyDirDone(s.t, path1, [], answer), w) <==> i in s.t[w].ports
  {
    var cells := Collected(s.t, ListedBelow(s.t, path1));
    NoSecondPath(s, path1, answer, w);
    ListedIsCopiedNowhere(s, path1, w);
    CopyIntoPortsAre(s.t, cells, [], answer, 0, i, w);
    CountsRooted(s.t, s.m);
    LinkedClosed(s.t, s.m, path1, []);
  }

  /** Exactly when: with something listed below the source, its listing stays as it is if and only if
      path1/ is not a prefix of path2/path1/. */
  lemma SourceKeptExactly(s: State, path1: Word, path2: Word, answer: nat -> Answer, x: Word)
    requires Inv(s) && AllYes(answer) && path1 in s.t && path2 in s.t && path1 != [] && Normal(path2)
    requires Shown(s.t, x) && Ancestor(path1, x)
    ensures (forall w | path1 + [SLASH] <= w :: Shown(CopyDirDone(s.t, path1, path2, answer), w) <==> Shown(s.t, w))
            <==> !IntoItself(path1, path2)
  {
    var t' := CopyDirDone(s.t, path1, path2, answer);
    if IntoItself(path1, path2) {
      var target := CopiedLongest(s, path1, path2, answer, x);
    } else {
      forall w | path1 + [SLASH] <= w ensures Shown(t', w) <==> Shown(s.t, w) {
        CreatedOutside(s.t, path1, path2, w);
        CopyDirAdds(s, path1, path2, answer, w);
      }
    }
  }

  /** The copy of the longest listed path is new. */
  lemma CopiedLongest(s: State, path1: Word, path2: Word, answer: nat -> Answer, x: Word) returns (target: Word)
    requires Inv(s) && AllYes(answer) && path1 in s.t && path2 in s.t && path1 != [] && Normal(path2)
    requires Shown(s.t, x) && Ancestor(path1, x) && IntoItself(path1, path2)
    ensures path1 + [SLASH] <= target && !Shown(s.t, target)
    ensures Shown(CopyDirDone(s.t, path1, path2, answer), target)
  {
    var y := Longest(s.t, path1, x);
    target := Target(path2, y);
    CopyDirAdds(s, path1, path2, answer, target);
    var p1 := path1 + [SLASH];
    assert target == Target(path2, p1) + y[|p1|..];
    PrefixTrans(p1, Target(path2, p1), target);
    assert Component(target, Target(path2, y)) && Created(s.t, path1, path2, target);
  }

  lemma {:induction false} Longest(t: Trie, dir: Word, x: Word) returns (y: Word)
    requires Shown(t, x) && Ancestor(dir, x)
    ensures Shown(t, y) && Ancestor(dir, y)
    ensures forall z | Shown(t, z) && Ancestor(dir, z) :: |z| <= |y|
    decreases LongerThan(t, |x|)
  {
    if z :| Shown(t, z) && Ancestor(dir, z) && |z| > |x| {
      assert z in LongerThan(t, |x|) && z !in LongerThan(t, |z|);
      assert LongerThan(t, |z|) < LongerThan(t, |x|);
      y := Longest(t, dir, z);
    } else {
      y := x;
    }
  }

  ghost function LongerThan(t: Trie, n: nat): set<Word> {
    set q | q in t && |q| > n
  }

  // ---------- where the code falls short ----------

  const START := State(EMPTY_TRIE, multiset{})

  /** The state after creating p and then q on server 0. */
  ghost function Two(p: Word, q: Word): State {
    Inserted(Inserted(START, ComponentPaths(p), 0), ComponentPaths(q), 0)
  }

  /** Two(p, q) is reached by two creates from the empty trie. */
  ghost predicate TwoCreates(p: Word, q: Word) {
    Run([START, Inserted(START, ComponentPaths(p), 0), Two(p, q)], [Create(p, 0, true), Create(q, 0, true)])
  }

  lemma TwoIsReached(p: Word, q: Word)
    ensures TwoCreates(p, q)
  {}

  lemma TwoFacts(p: Word, q: Word)
    requires Normal(p) && Normal(q)
    ensures Holds(Two(p, q), p, q)
    ensures Two(p, q).m == multiset(ComponentPaths(p)) + multiset(ComponentPaths(q))
  {
    OneFacts(p);
    AddPath(Inserted(START, ComponentPaths(p), 0), q);
    OutstandingShown(Two(p, q));
  }

  lemma OneFacts(p: Word)
    requires Normal(p)
    ensures var u := Inserted(START, ComponentPaths(p), 0);
      && Inv(u) && u.m == multiset(ComponentPaths(p))
      && (forall w :: Shown(u.t, w) <==> Component(w, p)) && (forall w | w in u.m :: Shown(u.t, w))
  {
    EmptyCounts();
    AddPath(START, p);
    assert START.m + multiset(ComponentPaths(p)) == multiset(ComponentPaths(p));
  }

  /** A create lists exactly the components of its path in addition. */
  lemma AddPath(s: State, path: Word)
    requires Inv(s) && Normal(path)
    ensures var u := Inserted(s, ComponentPaths(path), 0);
      && Inv(u) && u.m == s.m + multiset(ComponentPaths(path))
      && (forall w :: Shown(u.t, w) <==> Shown(s.t, w) || Component(w, path))
      && ((forall w | w in s.m :: Shown(s.t, w)) ==> forall w | w in u.m :: Shown(u.t, w))
  {
    var u := Inserted(s, ComponentPaths(path), 0);
    CreateKeeps(s, path, 0);
    InsertAllFacts(s.t, s.m, ComponentPaths(path), 0);
    forall w ensures w in ComponentPaths(path) <==> Component(w, path) {
      ComponentPathsOfNormal(path, w);
    }
  }

  lemma OutstandingShown(s: State)
    requires Inv(s)
    ensures forall w | Shown(s.t, w) :: w in s.m && s.t[w].ports != []
  {
    forall w | Shown(s.t, w) ensures w in s.m && s.t[w].ports != [] {
      assert Sound(s.t[w], s.m, w);
    }
  }

  /** The state holds exactly the component prefixes of p and q, all of them listed. */
  ghost predicate Holds(s: State, p: Word, q: Word) {
    && Inv(s)
    && (forall w :: Shown(s.t, w) <==> Component(w, p) || Component(w, q))
    && (forall w | w in s.m :: Shown(s.t, w))
    && (forall w | Shown(s.t, w) :: w in s.m && s.t[w].ports != [])
  }

  /** deletefile of a path p whose name another directory continues: with p and p+n/r stored, the
      directory p+n goes instead of p, and p+n/r stays listed without its directory. */
  lemma DeleteFileOrphans(s: State, p: Word, n: Word, r: Word)
    requires Name(p) && Name(n) && Name(r) && Holds(s, p, Target(p + n, r))
    ensures Shown(s.t, p) && !Lonely(s.m, p) && !Closed(FileDeleted(s.t, p))
  {
    var q := p + n;
    var z := Target(q, r);
    assert Component(p, p) && Ancestor(q, z) && Component(q, z) && Component(z, z);
    NextIsDirectory(s, p, q, z, r);
    DeleteFileClosedExactly(s, p, q);
    assert p <= q;
  }

  /** The directory taken that way keeps its ports although nothing of it is outstanding any more, and all
      that starts with its name is its content. So a deletedir of it finds it, drains the content, and then
      deletes a word that is not linked. */
  lemma OrphanedDirectory(s: State, p: Word, n: Word, r: Word)
    requires Name(p) && Name(n) && Name(r) && Holds(s, p, Target(p + n, r)) && s.m[p + n] == 1
    ensures p in s.t && FileGone(s.t, s.m, p, FileDeleted(s.t, p), s.m - multiset{p + n})
    ensures HasPorts(FileDeleted(s.t, p), p + n)
    ensures forall x | x in s.m - multiset{p + n} && p + n <= x :: p + n + [SLASH] <= x
  {
    var q := p + n;
    var z, m' := Target(q, r), s.m - multiset{q};
    assert Component(p, p) && Ancestor(q, z) && Component(q, z) && Component(z, z);
    NextIsDirectory(s, p, q, z, r);
    DeleteFileMarks(s, p, q);
    assert z in m' && q <= z;
    BelowMember(m', q, z);
    forall x | x in m' && q <= x ensures q + [SLASH] <= x {
      assert Shown(s.t, x);
      OnlyContent(p, n, r, x);
    }
  }

  lemma OnlyContent(p: Word, n: Word, r: Word, x: Word)
    requires Name(p) && Name(n) && Name(r) && (Component(x, p) || Component(x, Target(p + n, r)))
    requires p + n <= x && x != p + n
    ensures p + n + [SLASH] <= x
  {
    NameFacts(p, x);
    NameFacts(p + n, x);
    AncestorOfAppend(x, p + n + [SLASH], r);
    AncestorOfSlash(x, p + n);
  }

  lemma NextIsDirectory(s: State, p: Word, q: Word, z: Word, r: Word)
    requires Inv(s) && Name(p) && Name(q) && Name(r) && p < q && z == Target(q, r)
    requires forall w :: Shown(s.t, w) <==> Component(w, p) || Component(w, z)
    requires forall w | w in s.m :: Shown(s.t, w)
    requires Shown(s.t, p) && Shown(s.t, q)
    ensures NextEntry(Unmark(s.t, p), p) == q
  {
    var u := Unmark(s.t, p);
    UnmarkCounts(s.t, s.m, p);
    BelowMember(s.m, p, p);
    CountsRooted(u, s.m);
    RecIsLeast(u, p);
    NextEntryOutstanding(u, s.m, p);
    var y := NextEntry(u, p);
    NextLetter(p, q);
    OutstandingLinked(u, s.m, q, p + [q[|p|]]);
    assert y != p && Candidate(u, q);
    assert Shown(s.t, y);
    NameFacts(p, y);
    NameFacts(q, y);
    AncestorOfAppend(y, q + [SLASH], r);
    AncestorOfSlash(y, q);
    if y == z {
      PrefixIsLess(q, z);
      LessTrans(q, z, q);
      LessIrreflexive(q);
    }
  }

  /** After a deletedir the directory is listed no more, yet searchWords keeps finding its old ports
      exactly as long as some outstanding word starts with its name. */
  lemma DeletedDirStillFound(s: State, dir: Word, s': State)
    requires Inv(s) && Shown(s.t, dir) && DirDeleted(s.t, s.m, dir, s'.t, s'.m)
    ensures !Shown(s'.t, dir)
    ensures (dir in s'.t && s'.t[dir].ports != []) <==> exists x :: x in s'.m && dir <= x
  {
    BelowPositive(s'.m, dir);
    assert Normal(dir);
  }

  /** Exactly when a deletedir sets a trap for the next one: the directory is found again although nothing of
      it is outstanding, so that DeleteNode is called with a word it must not be called with. */
  lemma SecondDeleteExactly(s: State, dir: Word, s': State)
    requires Inv(s) && Shown(s.t, dir) && DirDeleted(s.t, s.m, dir, s'.t, s'.m)
    ensures HasPorts(s'.t, dir) && dir !in s'.m
            <==> s.m[dir] == 1 && exists x :: x in s.m && dir <= x && x != dir && !(dir + [SLASH] <= x)
  {
    DeletedDirStillFound(s, dir, s');
    assert Normal(dir);
    if x :| x in s.m && dir <= x && x != dir && !(dir + [SLASH] <= x) {
      assert s'.m[x] == s.m[x];
    }
    if dir !in s'.m {
      assert s'.m[dir] == s.m[dir] - 1;
      if x :| x in s'.m && dir <= x {
        assert x in s.m && x != dir && !(dir + [SLASH] <= x);
      }
    }
  }

  /** Such states are reached: p and p+n stored once each, for all names. */
  lemma DeleteDirTwice(s: State, p: Word, n: Word) returns (s': State)
    requires Name(p) && Name(n) && Holds(s, p, p + n) && s.m[p] == 1
    ensures Step(s, DeleteDir(p), s') && Inv(s')
    ensures p in s'.t && s'.t[p].ports != [] && p !in s'.m
  {
    var q := p + n;
    assert Component(p, p) && Component(q, q);
    forall x | x in s.m ensures !Ancestor(p, x) {
      NameFacts(p, p);
      NameFacts(q, p);
      NameFacts(p, x);
      NameFacts(q, x);
    }
    s' := DeleteAlone(s, p);
    assert p <= q && q in s'.m;
    DeletedDirStillFound(s, p, s');
  }

  /** Both states are reached by two creates from the empty trie. */
  lemma TwoNames(p: Word, n: Word, r: Word)
    requires Name(p) && Name(n) && Name(r)
    ensures TwoCreates(p, Target(p + n, r)) && TwoCreates(p, p + n)
    ensures Holds(Two(p, Target(p + n, r)), p, Target(p + n, r))
    ensures Holds(Two(p, p + n), p, p + n) && Two(p, p + n).m == multiset{p, p + n}
  {
    NameFacts(p, p);
    NameFacts(p + n, p);
    NameFacts(r, r);
    NormalTarget(p + n, r);
    TwoIsReached(p, Target(p + n, r));
    TwoFacts(p, Target(p + n, r));
    TwoSingles(p, p + n);
  }

  lemma TwoSingles(p: Word, q: Word)
    requires Name(p) && Name(q)
    ensures TwoCreates(p, q) && Holds(Two(p, q), p, q) && Two(p, q).m == multiset{p, q}
  {
    NameFacts(p, p);
    NameFacts(q, q);
    TwoIsReached(p, q);
    TwoFacts(p, q);
    ComponentPathsOfName(p);
    ComponentPathsOfName(q);
  }

  /** With one more name p+k the second deletedir of p leaves counts that fit no outstanding words at all. The
      state is reached by three creates and a deletedir. */
  lemma SecondDeleteBreaks(p: Word, n: Word, k: Word) returns (s': State)
    requires Name(p) && Name(n) && Name(k)
    ensures ThreeAndDelete(p, n, k, s')
    ensures Inv(s') && HasPorts(s'.t, p) && p !in s'.m
    ensures forall m :: !Counts(DeleteLinked(s'.t, p), m)
  {
    var s3 := Three(p, n, k);
    ThreeStored(p, n, k);
    s' := DeleteAlone(s3, p);
    ThreeIsReached(p, n, k, s');
    TwoLeft(s3, p, n, k, s');
    forall m ensures !Counts(DeleteLinked(s'.t, p), m) {
      StrayDeleteBreaks(s'.t, s'.m, p, m);
    }
  }

  ghost function Three(p: Word, n: Word, k: Word): State {
    Inserted(Two(p, p + n), ComponentPaths(p + k), 0)
  }

  /** create p, create p+n, create p+k, deletedir p. */
  ghost predicate ThreeAndDelete(p: Word, n: Word, k: Word, s': State) {
    Run([START, Inserted(START, ComponentPaths(p), 0), Two(p, p + n), Three(p, n, k), s'],
        [Create(p, 0, true), Create(p + n, 0, true), Create(p + k, 0, true), DeleteDir(p)])
  }

  lemma ThreeIsReached(p: Word, n: Word, k: Word, s': State)
    requires Step(Three(p, n, k), DeleteDir(p), s') && Admissible(Three(p, n, k), DeleteDir(p))
    ensures ThreeAndDelete(p, n, k, s')
  {}

  lemma TwoLeft(s: State, p: Word, n: Word, k: Word, s': State)
    requires Name(p) && Name(n) && Name(k) && Inv(s) && Shown(s.t, p) && Inv(s')
    requires DirDeleted(s.t, s.m, p, s'.t, s'.m) && s.m == Bag3(p, p + n, p + k) && s'.m == s.m - multiset{p}
    ensures HasPorts(s'.t, p) && p !in s'.m && Zeros(s'.t, p) == {}
  {
    DeletedDirStillFound(s, p, s');
    BagOf3(p, p + n, p + k);
    assert p + n in s'.m && p <= p + n && p <= p + k;
    NoneAlone(s'.t, s'.m, p, p + n, p + k);
  }

  ghost function Bag3(a: Word, b: Word, c: Word): Bag { multiset{a, b} + multiset{c} }

  lemma BagOf3(a: Word, b: Word, c: Word)
    requires a != b && a != c
    ensures var m := Bag3(a, b, c) - multiset{a}; a !in m && b in m && c in m - multiset{b}
  {}

  /** Two outstanding words that start with p keep its path nodes from being counted once. */
  lemma NoneAlone(t: Trie, m: Bag, p: Word, x: Word, y: Word)
    requires Counts(t, m) && x in m && y in m - multiset{x} && p <= x && p <= y
    ensures p in t && Zeros(t, p) == {}
  {
    OutstandingLinked(t, m, x, p);
    forall q | q in t && q != [] && q <= p ensures t[q].count != 1 {
      PrefixTrans(q, p, x);
      PrefixTrans(q, p, y);
      BelowRemove(m, x, q);
      BelowMember(m - multiset{x}, q, y);
    }
  }

  lemma ThreeStored(p: Word, n: Word, k: Word)
    requires Name(p) && Name(n) && Name(k)
    ensures var s := Three(p, n, k);
      && Inv(s) && Shown(s.t, p) && s.m == Bag3(p, p + n, p + k)
      && (forall x | x in s.m :: !Ancestor(p, x)) && Admissible(s, DeleteDir(p))
  {
    TwoSingles(p, p + n);
    AddName(Two(p, p + n), p + k);
    assert Component(p, p);
    NamesHaveNoAncestors(p, p + n, p + k, p);
  }

  lemma AddName(s: State, q: Word)
    requires Inv(s) && Name(q)
    ensures var u := Inserted(s, ComponentPaths(q), 0);
      Inv(u) && u.m == s.m + multiset{q} && forall w | Shown(s.t, w) :: Shown(u.t, w)
  {
    CreateKeeps(s, q, 0);
    ComponentPathsOfName(q);
    InsertAllFacts(s.t, s.m, [q], 0);
  }

  lemma NamesHaveNoAncestors(a: Word, b: Word, c: Word, p: Word)
    requires Name(a) && Name(b) && Name(c)
    ensures forall x | x in Bag3(a, b, c) :: !Ancestor(p, x)
  {
    NameFacts(a, p);
    NameFacts(b, p);
    NameFacts(c, p);
  }

  lemma DeleteAlone(s: State, p: Word) returns (s': State)
    requires Inv(s) && Shown(s.t, p) && forall x | x in s.m :: !Ancestor(p, x)
    ensures DirDeleted(s.t, s.m, p, s'.t, s'.m) && Inv(s') && Step(s, DeleteDir(p), s')
    ensures s'.m == s.m - multiset{p}
  {
    assert Normal(p);
    BelowPositive(s.m, p + [SLASH]);
    DrainEnd(s.t, s.m, p + [SLASH], s.t, s.m);
    DirDeletedFrom(s.t, s.m, p, s.t, s.m);
    s' := State(Delete(s.t, p), s.m - multiset{p});
    StepKeeps(s, DeleteDir(p), s');
  }
}
