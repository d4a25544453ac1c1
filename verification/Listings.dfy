/** What strtok makes of a text: the words that its delimiters keep apart, in their order. And so what a
    registration stores. */
module Listings {
  import opened Words
  import opened PathNames
  import opened TrieModel
  import opened NamespaceModel
  import opened NamingTrie
  import Namespace
  import NamespaceRuns

  function Gap(d: Letter, n: nat): Word {
    seq(n, _ => d)
  }

  /** gaps[0] delimiters, and each word with as many delimiters behind it as the next gap says. */
  function Text(ws: seq<Word>, gaps: seq<nat>, d: Letter): Word
    requires |gaps| == |ws| + 1
    decreases ws
  {
    Gap(d, gaps[0]) + if ws == [] then [] else ws[0] + Text(ws[1..], gaps[1..], d)
  }

  /** Words that are not empty and hold no delimiter, with at least one delimiter between any two of them. */
  ghost predicate KeptApart(ws: seq<Word>, gaps: seq<nat>, d: Letter) {
    && |gaps| == |ws| + 1 && (forall k | 1 <= k < |ws| :: gaps[k] >= 1)
    && forall w | w in ws :: w != [] && d !in w
  }

  lemma KeptTail(ws: seq<Word>, gaps: seq<nat>, d: Letter)
    requires KeptApart(ws, gaps, d) && ws != []
    ensures KeptApart(ws[1..], gaps[1..], d) && ws[0] != [] && d !in ws[0]
  {
    assert ws[0] in ws;
    forall w | w in ws[1..] ensures w != [] && d !in w {
      assert w in ws;
    }
  }

  lemma {:induction false} GapSkipped(d: Letter, n: nat, s: Word)
    ensures Tokens(Gap(d, n) + s, d) == Tokens(s, d)
    decreases n
  {
    if n == 0 {
      assert Gap(d, 0) + s == s;
    } else {
      assert (Gap(d, n) + s)[1..] == Gap(d, n - 1) + s;
      GapSkipped(d, n - 1, s);
    }
  }

  lemma {:induction false} RunOfWord(w: Word, rest: Word, d: Letter)
    requires d !in w && (rest == [] || rest[0] == d)
    ensures Run(w + rest, d) == |w|
    decreases w
  {
    if w == [] {
      assert w + rest == rest;
    } else {
      assert (w + rest)[1..] == w[1..] + rest;
      RunOfWord(w[1..], rest, d);
    }
  }

  lemma WordCut(w: Word, rest: Word, d: Letter)
    requires w != [] && d !in w && (rest == [] || rest[0] == d)
    ensures Tokens(w + rest, d) == [w] + Tokens(rest, d)
  {
    RunOfWord(w, rest, d);
    assert (w + rest)[..|w|] == w && (w + rest)[|w|..] == rest && (w + rest)[0] == w[0];
  }

  lemma TextStarts(ws: seq<Word>, gaps: seq<nat>, d: Letter)
    requires |gaps| == |ws| + 1 && (gaps[0] >= 1 || ws == [])
    ensures Text(ws, gaps, d) == [] || Text(ws, gaps, d)[0] == d
  {}

  lemma OneMoreGap(ws: seq<Word>, gaps: seq<nat>, d: Letter)
    requires KeptApart(ws, gaps, d)
    ensures var more := gaps[0 := gaps[0] + 1];
      KeptApart(ws, more, d) && Text(ws, more, d) == [d] + Text(ws, gaps, d)
  {
    var more := gaps[0 := gaps[0] + 1];
    assert more[1..] == gaps[1..] && Gap(d, more[0]) == [d] + Gap(d, gaps[0]);
  }

  lemma OneMoreWord(w: Word, ws: seq<Word>, gaps: seq<nat>, d: Letter)
    requires w != [] && d !in w && KeptApart(ws, gaps, d) && (ws != [] ==> gaps[0] >= 1)
    ensures KeptApart([w] + ws, [0] + gaps, d) && Text([w] + ws, [0] + gaps, d) == w + Text(ws, gaps, d)
  {
    assert ([w] + ws)[1..] == ws && ([0] + gaps)[1..] == gaps && Gap(d, 0) == [];
  }

  /** The tokens of a text are exactly its words, whatever stands in front, behind and doubled between them. */
  lemma {:induction false} TokensOfText(ws: seq<Word>, gaps: seq<nat>, d: Letter)
    requires KeptApart(ws, gaps, d)
    ensures Tokens(Text(ws, gaps, d), d) == ws
    decreases ws
  {
    if ws == [] {
      assert Text(ws, gaps, d) == Gap(d, gaps[0]) + [];
      GapSkipped(d, gaps[0], []);
    } else {
      var rest := Text(ws[1..], gaps[1..], d);
      KeptTail(ws, gaps, d);
      TokensOfText(ws[1..], gaps[1..], d);
      GapSkipped(d, gaps[0], ws[0] + rest);
      TextStarts(ws[1..], gaps[1..], d);
      WordCut(ws[0], rest, d);
    }
  }

  lemma FirstGap(ws: seq<Word>, gaps: seq<nat>, d: Letter)
    requires KeptApart(ws, gaps, d) && ws != []
    ensures Text(ws, gaps, d) != [] && (Text(ws, gaps, d)[0] == d <==> gaps[0] >= 1)
  {
    assert ws[0] in ws && ws[0][0] in ws[0];
  }

  /** gaps lay the tokens of s out as s. */
  ghost predicate LaidOut(s: Word, d: Letter, gaps: seq<nat>) {
    KeptApart(Tokens(s, d), gaps, d) && Text(Tokens(s, d), gaps, d) == s
  }

  lemma DelimiterInFront(s: Word, d: Letter, gaps: seq<nat>)
    requires s != [] && s[0] == d && LaidOut(s[1..], d, gaps)
    ensures LaidOut(s, d, gaps[0 := gaps[0] + 1])
  {
    OneMoreGap(Tokens(s[1..], d), gaps, d);
  }

  lemma WordInFront(s: Word, d: Letter, gaps: seq<nat>)
    requires s != [] && s[0] != d && LaidOut(s[Run(s, d)..], d, gaps)
    ensures LaidOut(s, d, [0] + gaps)
  {
    var w, rest := s[..Run(s, d)], s[Run(s, d)..];
    var ws := Tokens(rest, d);
    if ws != [] {
      FirstGap(ws, gaps, d);
    }
    OneMoreWord(w, ws, gaps, d);
    assert w + rest == s;
  }

  /** And every text is one of its tokens. */
  lemma {:induction false} TextOfTokens(s: Word, d: Letter) returns (gaps: seq<nat>)
    ensures LaidOut(s, d, gaps)
    decreases |s|
  {
    if s == [] {
      gaps := [0];
    } else if s[0] == d {
      gaps := TextOfTokens(s[1..], d);
      DelimiterInFront(s, d, gaps);
      gaps := gaps[0 := gaps[0] + 1];
    } else {
      gaps := TextOfTokens(s[Run(s, d)..], d);
      WordInFront(s, d, gaps);
      gaps := [0] + gaps;
    }
  }

  /** A registration lists exactly the lines of its text in addition, each for the registering server. */
  lemma RegistrationLists(t: Trie, m: Bag, lines: seq<Word>, gaps: seq<nat>, port: int, w: Word)
    requires Counts(t, m) && KeptApart(lines, gaps, '\n')
    ensures var u := InsertAll(t, Tokens(Text(lines, gaps, '\n'), NEWLINE), port);
      && Counts(u, m + multiset(lines)) && (Shown(u, w) <==> Shown(t, w) || w in lines)
      && At(u, w).ports == if w in lines && port !in At(t, w).ports then [port] + At(t, w).ports else At(t, w).ports
  {
    TokensOfText(lines, gaps, '\n');
    Namespace.InsertAllFacts(t, m, lines, port);
    NamespaceRuns.InsertAllPortsAre(t, lines, port, w);
  }

  // ---------- the paths of a create ----------

  function Joined(ws: seq<Word>): Word {
    if ws == [] then [] else if |ws| == 1 then ws[0] else Joined(ws[..|ws| - 1]) + ['/'] + ws[|ws| - 1]
  }

  lemma {:induction false} JoinedFront(ws: seq<Word>)
    requires |ws| >= 2
    ensures Joined(ws) == ws[0] + ['/'] + Joined(ws[1..])
    decreases |ws|
  {
    var n := |ws| - 1;
    if n == 1 {
      assert Joined(ws[..1]) == ws[0] && Joined(ws[1..]) == ws[1];
    } else {
      JoinedFront(ws[..n]);
      assert ws[1..][..n - 1] == ws[..n][1..] && ws[1..][n - 1] == ws[n];
    }
  }

  lemma {:induction false} PathsFromAt(acc: Word, ws: seq<Word>, k: nat)
    requires k < |ws|
    ensures |PathsFrom(acc, ws)| == |ws| && PathsFrom(acc, ws)[k] == acc + Joined(ws[..k + 1])
    decreases |ws|
  {
    if |ws| > 1 {
      PathsFromAt(acc + ws[0] + [SLASH], ws[1..], if k == 0 then 0 else k - 1);
    }
    if k > 0 {
      JoinedFront(ws[..k + 1]);
      assert ws[..k + 1][1..] == ws[1..][..k];
    } else {
      assert ws[..1] == [ws[0]];
    }
  }

  /** Whatever slashes a path has, a create inserts the path of its first component, of its first two
      components, and so on. */
  lemma PathsOfText(ws: seq<Word>, gaps: seq<nat>, k: nat)
    requires KeptApart(ws, gaps, '/') && k < |ws|
    ensures var paths := ComponentPaths(Text(ws, gaps, '/'));
      |paths| == |ws| && paths[k] == Joined(ws[..k + 1])
  {
    TokensOfText(ws, gaps, '/');
    PathsFromAt([], ws, k);
  }
}
