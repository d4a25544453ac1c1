/** Which semaphore calls the threads of the protocol make, and whom a copying round keeps out, told by what the
    states do and not by what a thread is said to hold or want. */
module SemaphoreCalls {
  import opened Wrappers
  import opened Redundancy

  // ---------- a copying round ----------

  /** While a round copies, nobody gets at the servers of its group: not a command that is about to talk to one,
      not its disconnect handler or registration, and no other round of the group goes on. */
  lemma CopyKeepsOut(s: State, k: nat, j: nat)
    requires Reached(s) && k < |s.threads| && j < |s.threads|
    requires s.threads[k].Round? && s.threads[k].pc == 4
    ensures var i, t := s.threads[k].index, s.threads[j];
      && (t.Command? && t.pc == 2 && t.todo != [] && t.todo[0] / 3 == i / 3 ==> !CanMove(s, j))
      && (t.Handler? && t.pc == 0 && t.index / 3 == i / 3 ==> !CanMove(s, j))
      && (t.Registrar? && t.pc == 1 && t.index / 3 == i / 3 ==> !CanMove(s, j))
      && (t.Round? && j != k && 1 <= t.pc <= 3 && t.index / 3 == i / 3 ==> !CanMove(s, j))
  {
    var i := s.threads[k].index;
    ThreeServers(i);
    CopyIsExclusive(s, k, j, i);
    CopyIsExclusive(s, k, j, First(i));
    CopyIsExclusive(s, k, j, Second(i));
  }

  /** The three servers of a group. */
  lemma ThreeServers(i: nat)
    ensures First(i) / 3 == i / 3 && Second(i) / 3 == i / 3
    ensures forall x: nat | x / 3 == i / 3 :: x == i || x == First(i) || x == Second(i)
  {}

  /** And nobody is with one of them already. */
  lemma CopyIsAlone(s: State, k: nat, j: nat)
    requires Reached(s) && k < |s.threads| && j < |s.threads|
    requires s.threads[k].Round? && s.threads[k].pc == 4
    ensures var i, t := s.threads[k].index, s.threads[j];
      && !(t.Command? && t.pc == 3 && t.todo != [] && t.todo[0] / 3 == i / 3)
      && !(t.Handler? && t.pc == 1 && t.index / 3 == i / 3)
      && !(t.Registrar? && t.pc == 2 && t.index / 3 == i / 3)
      && !(t.Round? && j != k && 2 <= t.pc <= 6 && t.index / 3 == i / 3)
  {
    var i := s.threads[k].index;
    ThreeServers(i);
    CopyIsExclusive(s, k, j, i);
    CopyIsExclusive(s, k, j, First(i));
    CopyIsExclusive(s, k, j, Second(i));
  }

  // ---------- a thread alone ----------

  /** The change of one semaphore. */
  type Call = (Lock, int)

  ghost predicate Changes(s: State, u: State, call: Call) {
    forall l :: Value(u, l) == Value(s, l) + if l == call.0 then call.1 else 0
  }

  /** With nobody else moving, thread k makes exactly these calls from s to u. */
  ghost predicate Makes(s: State, k: nat, calls: seq<Call>, u: State)
    decreases calls
  {
    if calls == [] then u == s
    else CanMove(s, k) && Changes(s, Move(s, k), calls[0]) && Makes(Move(s, k), k, calls[1..], u)
  }

  /** Nobody holds anything but the red lock. */
  ghost predicate Free(s: State) {
    forall l :: l != Red ==> Value(s, l) >= 1
  }

  /** Nobody is with a server. */
  ghost predicate ServersFree(s: State) {
    forall i: nat :: Value(s, Server(i)) >= 1
  }

  lemma MakesMore(s: State, k: nat, calls: seq<Call>, u: State, first: Call, rest: seq<Call>)
    requires calls == [first] + rest && CanMove(s, k) && Changes(s, Move(s, k), first) && Makes(Move(s, k), k, rest, u)
    ensures Makes(s, k, calls, u)
  {
    assert calls[1..] == rest;
  }

  lemma {:induction false} MakesConcat(s: State, k: nat, a: seq<Call>, v: State, b: seq<Call>, u: State)
    requires Makes(s, k, a, v) && Makes(v, k, b, u)
    ensures Makes(s, k, a + b, u)
    decreases a
  {
    if a == [] {
      assert a + b == b;
    } else {
      MakesConcat(Move(s, k), k, a[1..], v, b, u);
      MakesMore(s, k, a + b, u, a[0], a[1..] + b);
    }
  }

  lemma MakesThree(
    s: State, k: nat, a: seq<Call>, v: State, b: seq<Call>, w: State, c: seq<Call>, u: State)
    requires Makes(s, k, a, v) && Makes(v, k, b, w) && Makes(w, k, c, u)
    ensures Makes(s, k, a + b + c, u)
  {
    MakesConcat(s, k, a, v, b, w);
    MakesConcat(s, k, a + b, w, c, u);
  }

  lemma MakesOne(s: State, k: nat, call: Call)
    requires CanMove(s, k) && Changes(s, Move(s, k), call)
    ensures Makes(s, k, [call], Move(s, k))
  {
    assert [call][1..] == [];
  }

  lemma WaitCall(s: State, k: nat, l: Lock)
    requires k < |s.threads| && Wants(s.threads[k]) == Some(l) && Value(s, l) >= 1
    ensures CanMove(s, k) && Changes(s, Move(s, k), (l, -1))
  {}

  lemma PostCall(s: State, k: nat, l: Lock)
    requires k < |s.threads| && Wants(s.threads[k]).None? && Posts(s.threads[k]) == Some(l)
    ensures CanMove(s, k) && Changes(s, Move(s, k), (l, 1))
  {}

  lemma MakesTwo(s: State, k: nat, a: Call, b: Call)
    requires CanMove(s, k) && Changes(s, Move(s, k), a)
    requires CanMove(Move(s, k), k) && Changes(Move(s, k), Move(Move(s, k), k), b)
    ensures Makes(s, k, [a, b], Move(Move(s, k), k))
  {
    MakesOne(s, k, a);
    MakesOne(Move(s, k), k, b);
    MakesConcat(s, k, [a], Move(s, k), [b], Move(Move(s, k), k));
    assert [a] + [b] == [a, b];
  }

  /** A command: its client, the red lock if it is free, each server it talks to, the red lock whether it was free
      or not, its client. */
  function CommandCalls(client: nat, servers: seq<nat>, free: bool): seq<Call> {
    [(Client(client), -1), (Red, if free then -1 else 0)] + ServerCalls(servers) + [(Red, 1), (Client(client), 1)]
  }

  function ServerCalls(servers: seq<nat>): seq<Call> {
    if servers == [] then [] else [(Server(servers[0]), -1), (Server(servers[0]), 1)] + ServerCalls(servers[1..])
  }

  /** A redundancy round of server i. */
  function RoundCalls(i: nat): seq<Call> {
    var a: nat := if i % 3 == 0 then i + 1 else if i % 3 == 1 then i - 1 else i - 2;
    var b: nat := if i % 3 == 0 then i + 2 else if i % 3 == 1 then i + 1 else i - 1;
    [(Red, -1), (Server(a), -1), (Server(b), -1), (Server(i), -1),
     (Server(i), 1), (Server(a), 1), (Server(b), 1), (Red, 1)]
  }

  lemma {:induction false} ServersAlone(s: State, k: nat) returns (u: State)
    requires k < |s.threads| && s.threads[k].Command? && s.threads[k].pc == 2 && ServersFree(s)
    ensures var t := s.threads[k];
      && Makes(s, k, ServerCalls(t.todo), u) && (forall l :: Value(u, l) == Value(s, l))
      && u.threads == s.threads[k := Command(t.client, [], 2, t.took)]
    decreases |s.threads[k].todo|
  {
    var t := s.threads[k];
    if t.todo == [] {
      u := s;
      assert s.threads[k := t] == s.threads;
    } else {
      var v := Move(Move(s, k), k);
      MakesTwo(s, k, (Server(t.todo[0]), -1), (Server(t.todo[0]), 1));
      u := ServersAlone(v, k);
      MakesConcat(s, k, [(Server(t.todo[0]), -1), (Server(t.todo[0]), 1)], v, ServerCalls(t.todo[1..]), u);
    }
  }

  lemma CommandStarts(s: State, k: nat) returns (u: State)
    requires k < |s.threads| && s.threads[k].Command? && s.threads[k].pc == 0 && Free(s)
    ensures var t, free := s.threads[k], Value(s, Red) > 0;
      && Makes(s, k, [(Client(t.client), -1), (Red, if free then -1 else 0)], u) && ServersFree(u)
      && u.threads == s.threads[k := Command(t.client, t.todo, 2, free)]
  {
    var t, free := s.threads[k], Value(s, Red) > 0;
    WaitCall(s, k, Client(t.client));
    MakesTwo(s, k, (Client(t.client), -1), (Red, if free then -1 else 0));
    u := Move(Move(s, k), k);
  }

  lemma CommandAlone(s: State, k: nat) returns (u: State)
    requires k < |s.threads| && s.threads[k].Command? && s.threads[k].pc == 0 && Free(s)
    ensures var t := s.threads[k];
      Makes(s, k, CommandCalls(t.client, t.todo, Value(s, Red) > 0), u) && !CanMove(u, k)
  {
    var t, free := s.threads[k], Value(s, Red) > 0;
    var a, b := [(Client(t.client), -1), (Red, if free then -1 else 0)], [(Red, 1), (Client(t.client), 1)];
    var v := CommandStarts(s, k);
    var w := ServersAlone(v, k);
    u := TwoPosts(w, k, Red, Client(t.client));
    MakesThree(s, k, a, v, ServerCalls(t.todo), w, b, u);
  }

  lemma TwoWaits(s: State, k: nat, a: Lock, b: Lock) returns (u: State)
    requires k < |s.threads| && Wants(s.threads[k]) == Some(a) && Value(s, a) >= 1
    requires Wants(After(s.threads[k], Value(s, Red) > 0)) == Some(b) && Value(s, b) >= 1 && a != b
    ensures Makes(s, k, [(a, -1), (b, -1)], u)
    ensures u.threads == s.threads[k := After(After(s.threads[k], Value(s, Red) > 0), Value(Move(s, k), Red) > 0)]
    ensures forall l :: l != a && l != b ==> Value(u, l) == Value(s, l)
  {
    WaitCall(s, k, a);
    WaitCall(Move(s, k), k, b);
    MakesTwo(s, k, (a, -1), (b, -1));
    u := Move(Move(s, k), k);
  }

  lemma TwoPosts(s: State, k: nat, a: Lock, b: Lock) returns (u: State)
    requires k < |s.threads| && Wants(s.threads[k]).None? && Posts(s.threads[k]) == Some(a)
    requires var t := After(s.threads[k], Value(s, Red) > 0); Wants(t).None? && Posts(t) == Some(b)
    ensures Makes(s, k, [(a, 1), (b, 1)], u)
    ensures u.threads == s.threads[k := After(After(s.threads[k], Value(s, Red) > 0), Value(Move(s, k), Red) > 0)]
  {
    PostCall(s, k, a);
    PostCall(Move(s, k), k, b);
    MakesTwo(s, k, (a, 1), (b, 1));
    u := Move(Move(s, k), k);
  }

  /** A round starts over behind its calls. */
  lemma RoundAlone(s: State, k: nat) returns (u: State)
    requires k < |s.threads| && s.threads[k].Round? && s.threads[k].pc == 0 && Free(s) && Value(s, Red) >= 1
    ensures Makes(s, k, RoundCalls(s.threads[k].index), u) && u.threads == s.threads
  {
    var calls := RoundCalls(s.threads[k].index);
    var v := RoundTakes(s, k);
    u := RoundReturns(v, k);
    MakesConcat(s, k, calls[..4], v, calls[4..], u);
    assert calls[..4] + calls[4..] == calls;
  }

  lemma RoundTakes(s: State, k: nat) returns (u: State)
    requires k < |s.threads| && s.threads[k].Round? && s.threads[k].pc == 0 && Free(s) && Value(s, Red) >= 1
    ensures var i := s.threads[k].index;
      Makes(s, k, RoundCalls(i)[..4], u) && u.threads == s.threads[k := Round(i, 4)]
  {
    var calls := RoundCalls(s.threads[k].index);
    var v := TwoWaits(s, k, calls[0].0, calls[1].0);
    u := TwoWaits(v, k, calls[2].0, calls[3].0);
    assert calls[..2] == [calls[0], calls[1]] && calls[2..4] == [calls[2], calls[3]];
    MakesConcat(s, k, calls[..2], v, calls[2..4], u);
    assert calls[..2] + calls[2..4] == calls[..4];
  }

  lemma RoundReturns(s: State, k: nat) returns (u: State)
    requires k < |s.threads| && s.threads[k].Round? && s.threads[k].pc == 4
    ensures var i := s.threads[k].index;
      Makes(s, k, RoundCalls(i)[4..], u) && u.threads == s.threads[k := Round(i, 0)]
  {
    var calls := RoundCalls(s.threads[k].index);
    var v := TwoPosts(s, k, calls[4].0, calls[5].0);
    u := TwoPosts(v, k, calls[6].0, calls[7].0);
    assert calls[4..6] == [calls[4], calls[5]] && calls[6..] == [calls[6], calls[7]];
    MakesConcat(s, k, calls[4..6], v, calls[6..], u);
    assert calls[4..6] + calls[6..] == calls[4..];
  }

  /** A disconnect handler takes and returns its server. */
  lemma HandlerAlone(s: State, k: nat) returns (u: State)
    requires k < |s.threads| && s.threads[k].Handler? && s.threads[k].pc == 0 && Free(s)
    ensures var i := s.threads[k].index;
      Makes(s, k, [(Server(i), -1), (Server(i), 1)], u) && !CanMove(u, k)
  {
    var i := s.threads[k].index;
    MakesTwo(s, k, (Server(i), -1), (Server(i), 1));
    u := Move(Move(s, k), k);
  }

  /** A registration takes and returns its server while it holds the master lock. */
  lemma RegistrarAlone(s: State, k: nat) returns (u: State)
    requires k < |s.threads| && s.threads[k].Registrar? && s.threads[k].pc == 0 && Free(s)
    ensures var i := s.threads[k].index;
      Makes(s, k, [(Master, -1), (Server(i), -1), (Server(i), 1), (Master, 1)], u) && !CanMove(u, k)
  {
    var i := s.threads[k].index;
    var v := TwoWaits(s, k, Master, Server(i));
    u := TwoPosts(v, k, Server(i), Master);
    MakesConcat(s, k, [(Master, -1), (Server(i), -1)], v, [(Server(i), 1), (Master, 1)], u);
  }
}
