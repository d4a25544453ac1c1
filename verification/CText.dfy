/** The parts of fprintf and fscanf that the trie's files use. */
module CText {
  import opened Words

  predicate IsSpace(c: Letter) {
    c == ' ' || c == '\t' || c == '\n' || c == 11 as char || c == 12 as char || c == '\r'
  }

  predicate IsDigit(c: Letter) {
    '0' <= c <= '9'
  }

  function DigitOf(d: nat): Letter
    requires d < 10
  {
    (48 + d) as char
  }

  // ---------- %d, printing ----------

  function DecNat(n: nat): Word {
    if n < 10 then [DigitOf(n)] else DecNat(n / 10) + [DigitOf(n % 10)]
  }

  function Dec(x: int): Word {
    if x < 0 then ['-'] + DecNat(-x) else DecNat(x)
  }

  // ---------- scanning ----------

  /** White space in a format skips any amount of white space. */
  function SkipSpace(s: Word): Word {
    if s != [] && IsSpace(s[0]) then SkipSpace(s[1..]) else s
  }

  /** The length of the longest prefix without white space. */
  function WordLength(s: Word): (n: nat)
    ensures n <= |s|
  {
    if s == [] || IsSpace(s[0]) then 0 else 1 + WordLength(s[1..])
  }

  /** Literal characters in a format are matched one by one; the first mismatch ends the scan. */
  function SkipLiteral(s: Word, lit: Word): (r: (bool, Word))
    ensures |r.1| <= |s|
  {
    if lit == [] then (true, s)
    else if s == [] || s[0] != lit[0] then (false, s)
    else SkipLiteral(s[1..], lit[1..])
  }

  function ScanDigits(acc: nat, s: Word): (r: (nat, Word))
    ensures |r.1| <= |s|
    decreases s
  {
    if s != [] && IsDigit(s[0]) then ScanDigits(acc * 10 + (s[0] as int - 48), s[1..]) else (acc, s)
  }

  datatype Scan<T> = Eof | NoMatch(rest: Word) | Match(value: T, rest: Word)

  /** %d: skip white space, then an optional sign and at least one digit; a lone sign is consumed. */
  function ScanInt(s0: Word): Scan<int> {
    var s := SkipSpace(s0);
    if s == [] then Eof
    else
      var signed := s[0] == '-' || s[0] == '+';
      var body := if signed then s[1..] else s;
      if body == [] || !IsDigit(body[0]) then NoMatch(body)
      else
        var (n, rest) := ScanDigits(0, body);
        var k: int := n;
        var x: int := if s[0] == '-' then -k else k;
        Match(x, rest)
  }

  /** "%s Ports: ": a word, white space, the literal, white space. One conversion, so the result is a
      match as soon as there is a word. */
  function ScanHeader(s0: Word, lit: Word): Scan<Word> {
    var s := SkipSpace(s0);
    if s == [] then Eof
    else
      var n := WordLength(s);
      var (ok, rest) := SkipLiteral(SkipSpace(s[n..]), lit);
      Match(s[..n], if ok then SkipSpace(rest) else rest)
  }

  lemma {:induction false} SkipSpaceShrinks(s: Word)
    ensures |SkipSpace(s)| <= |s| && (SkipSpace(s) != [] ==> !IsSpace(SkipSpace(s)[0]))
    decreases s
  {
    if s != [] && IsSpace(s[0]) {
      SkipSpaceShrinks(s[1..]);
    }
  }

  lemma ScanIntShrinks(s: Word)
    ensures ScanInt(s).Match? ==> |ScanInt(s).rest| < |s|
    ensures ScanInt(s).NoMatch? ==> |ScanInt(s).rest| <= |s|
  {
    SkipSpaceShrinks(s);
  }

  lemma ScanHeaderShrinks(s: Word, lit: Word)
    ensures ScanHeader(s, lit).Match? ==> |ScanHeader(s, lit).rest| < |s|
  {
    var r := SkipSpace(s);
    SkipSpaceShrinks(s);
    if r != [] {
      var n := WordLength(r);
      SkipSpaceShrinks(r[n..]);
      SkipSpaceShrinks(SkipLiteral(SkipSpace(r[n..]), lit).1);
    }
  }

  // ---------- what was printed is scanned back ----------

  ghost predicate AllDigits(a: Word) {
    forall i | 0 <= i < |a| :: IsDigit(a[i])
  }

  ghost function Accumulate(acc: nat, a: Word): nat
    requires AllDigits(a)
  {
    if a == [] then acc else Accumulate(acc, a[..|a| - 1]) * 10 + (a[|a| - 1] as int - 48)
  }

  lemma {:induction false} AccumulateFront(acc: nat, a: Word)
    requires AllDigits(a) && a != []
    ensures Accumulate(acc, a) == Accumulate(acc * 10 + (a[0] as int - 48), a[1..])
    decreases |a|
  {
    if |a| > 1 {
      AccumulateFront(acc, a[..|a| - 1]);
      assert a[..|a| - 1][1..] == a[1..][..|a[1..]| - 1];
    } else {
      assert a[1..] == [] && a[..0] == [];
    }
  }

  lemma {:induction false} ScanDigitsReads(acc: nat, a: Word, r: Word)
    requires AllDigits(a) && (r == [] || !IsDigit(r[0]))
    ensures ScanDigits(acc, a + r) == (Accumulate(acc, a), r)
    decreases |a|
  {
    if a == [] {
      assert a + r == r;
    } else {
      AccumulateFront(acc, a);
      assert (a + r)[1..] == a[1..] + r;
      ScanDigitsReads(acc * 10 + (a[0] as int - 48), a[1..], r);
    }
  }

  lemma {:induction false} DecNatFacts(n: nat)
    ensures DecNat(n) != [] && AllDigits(DecNat(n)) && Accumulate(0, DecNat(n)) == n
  {
    if n >= 10 {
      DecNatFacts(n / 10);
      var a := DecNat(n / 10);
      assert DecNat(n)[..|DecNat(n)| - 1] == a;
    } else {
      assert DecNat(n)[..0] == [];
    }
  }

  lemma DecFacts(x: int)
    ensures Dec(x) != [] && !IsSpace(Dec(x)[0])
  {
    DecNatFacts(if x < 0 then -x else x);
    assert x >= 0 ==> IsDigit(DecNat(x)[0]);
  }

  lemma ScanBareInt(x: int, r: Word)
    requires r == [] || !IsDigit(r[0])
    ensures ScanInt(Dec(x) + r) == Match(x, r)
  {
    var n: nat := if x < 0 then -x else x;
    DecNatFacts(n);
    ScanSigned(x < 0, n, DecNat(n), r);
  }

  lemma ScanSigned(minus: bool, n: nat, a: Word, r: Word)
    requires a != [] && AllDigits(a) && Accumulate(0, a) == n && (r == [] || !IsDigit(r[0]))
    ensures ScanInt((if minus then ['-'] + a else a) + r) == Match(if minus then 0 - n else n, r)
  {
    ScanDigitsReads(0, a, r);
    assert IsDigit(a[0]);
    if minus {
      assert ((['-'] + a) + r)[1..] == a + r;
    }
  }

  lemma ScanIntReads(x: int, r: Word)
    requires r == [] || !IsDigit(r[0])
    ensures ScanInt([' '] + Dec(x) + r) == Match(x, r)
  {
    var s := [' '] + Dec(x) + r;
    assert s[1..] == Dec(x) + r;
    DecFacts(x);
    ScanBareInt(x, r);
    assert SkipSpace(s) == SkipSpace(s[1..]) == s[1..];
  }

  // ---------- the characters themselves ----------

  /** Decimal digits, the highest first. */
  lemma DigitsAre(n: nat, d: nat)
    requires d < 10
    ensures DecNat(d) == ["0123456789"[d]]
    ensures n > 0 ==> DecNat(10 * n + d) == DecNat(n) + ["0123456789"[d]]
  {
    assert DigitOf(d) == "0123456789"[d];
  }

  lemma SignIs(n: nat)
    ensures Dec(n) == DecNat(n) && (n > 0 ==> Dec(0 - n) == "-" + DecNat(n))
  {}
}
