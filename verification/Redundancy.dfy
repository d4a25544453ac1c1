/** The semaphores shared by the redundancy rounds, the disconnect handlers, the registrations and the
    client commands: a state machine over every interleaving of their sem_wait, sem_trywait and sem_post
    calls. */
module Redundancy {
  import opened Wrappers
  import Placement

  datatype Lock = Red | Master | Client(port: nat) | Server(index: nat)

  /** A thread between two of its semaphore calls; `pc` counts the calls it has made in this pass. */
  datatype Thread =
    | Round(index: nat, pc: nat)
    | Handler(index: nat, pc: nat)
    | Registrar(index: nat, pc: nat)
    | Command(client: nat, todo: seq<nat>, pc: nat, took: bool)

  /** What a thread can be counted for. `Extra`: a command that posted the red lock without having
      taken it. */
  datatype Mark = Holding(l: Lock) | Extra | Active

  datatype State = State(sem: map<Lock, int>, threads: seq<Thread>)

  function Value(s: State, l: Lock): int {
    if l in s.sem then s.sem[l] else 1
  }

  function First(index: nat): nat { Placement.Replicas(index).0.server }

  function Second(index: nat): nat { Placement.Replicas(index).1.server }

  predicate Holds(t: Thread, l: Lock) {
    match t
    case Round(i, pc) =>
      || (l == Red && 1 <= pc <= 7)
      || (l == Server(First(i)) && 2 <= pc <= 5)
      || (l == Server(Second(i)) && 3 <= pc <= 6)
      || (l == Server(i) && pc == 4)
    case Handler(i, pc) => l == Server(i) && pc == 1
    case Registrar(i, pc) => (l == Master && 1 <= pc <= 3) || (l == Server(i) && pc == 2)
    case Command(c, todo, pc, took) =>
      && (pc == 3 ==> todo != [])
      && (|| (l == Client(c) && 1 <= pc <= 4)
          || (l == Red && took && 2 <= pc <= 3)
          || (pc == 3 && l == Server(todo[0])))
  }

  predicate Copying(t: Thread) { t.Round? && t.pc == 4 }

  predicate Has(t: Thread, m: Mark) {
    match m
    case Holding(l) => Holds(t, l)
    case Extra => t.Command? && t.pc >= 4 && !t.took
    case Active => t.Round? && 1 <= t.pc <= 7
  }

  /** The lock whose sem_wait is the thread's next call. */
  function Wants(t: Thread): Option<Lock> {
    match t
    case Round(i, pc) =>
      if pc == 0 then Some(Red) else if pc == 1 then Some(Server(First(i)))
      else if pc == 2 then Some(Server(Second(i))) else if pc == 3 then Some(Server(i)) else None
    case Handler(i, pc) => if pc == 0 then Some(Server(i)) else None
    case Registrar(i, pc) =>
      if pc == 0 then Some(Master) else if pc == 1 then Some(Server(i)) else None
    case Command(c, todo, pc, took) =>
      if pc == 0 then Some(Client(c)) else if pc == 2 && todo != [] then Some(Server(todo[0])) else None
  }

  /** The lock whose sem_post is the thread's next call. */
  function Posts(t: Thread): Option<Lock> {
    match t
    case Round(i, pc) =>
      if pc == 4 then Some(Server(i)) else if pc == 5 then Some(Server(First(i)))
      else if pc == 6 then Some(Server(Second(i))) else if pc == 7 then Some(Red) else None
    case Handler(i, pc) => if pc == 1 then Some(Server(i)) else None
    case Registrar(i, pc) =>
      if pc == 2 then Some(Server(i)) else if pc == 3 then Some(Master) else None
    case Command(c, todo, pc, took) =>
      if pc == 2 && todo == [] then Some(Red)
      else if pc == 3 && todo != [] then Some(Server(todo[0]))
      else if pc == 4 then Some(Client(c)) else None
  }

  predicate Tries(t: Thread) { t.Command? && t.pc == 1 }

  /** The thread after its next call; `free` says whether a sem_trywait would succeed. */
  function After(t: Thread, free: bool): Thread {
    match t
    case Round(i, pc) => Round(i, if pc == 7 then 0 else pc + 1)
    case Handler(i, pc) => Handler(i, pc + 1)
    case Registrar(i, pc) => Registrar(i, pc + 1)
    case Command(c, todo, pc, took) =>
      if pc == 1 then Command(c, todo, 2, free)
      else if pc == 2 && todo == [] then Command(c, todo, 4, took)
      else if pc == 3 && todo != [] then Command(c, todo[1..], 2, took)
      else Command(c, todo, pc + 1, took)
  }

  predicate Starting(t: Thread) { t.pc == 0 }

  /** Some call is left to the thread. */
  predicate Unfinished(t: Thread) {
    Wants(t).Some? || Posts(t).Some? || Tries(t)
  }

  predicate Blocked(s: State, t: Thread) {
    Wants(t).Some? && Value(s, Wants(t).value) <= 0
  }

  predicate CanMove(s: State, k: nat) {
    k < |s.threads| && Unfinished(s.threads[k]) && !Blocked(s, s.threads[k])
  }

  function Add(s: State, l: Lock, d: int): map<Lock, int> {
    s.sem[l := Value(s, l) + d]
  }

  function Semaphores(s: State, t: Thread): map<Lock, int> {
    if Wants(t).Some? then Add(s, Wants(t).value, -1)
    else if Posts(t).Some? then Add(s, Posts(t).value, 1)
    else if Tries(t) && Value(s, Red) > 0 then Add(s, Red, -1)
    else s.sem
  }

  function Move(s: State, k: nat): State
    requires k < |s.threads|
  {
    var t := s.threads[k];
    State(Semaphores(s, t), s.threads[k := After(t, Value(s, Red) > 0)])
  }

  function Spawn(s: State, t: Thread): State {
    State(s.sem, s.threads + [t])
  }

  ghost predicate Step(s: State, u: State) {
    || (exists k: nat :: CanMove(s, k) && u == Move(s, k))
    || (exists t :: Starting(t) && u == Spawn(s, t))
  }

  ghost predicate StepAt(run: seq<State>, k: nat) {
    k + 1 < |run| && Step(run[k], run[k + 1])
  }

  const INITIAL := State(map[], [])

  ghost predicate Run(run: seq<State>) {
    && |run| > 0 && run[0] == INITIAL
    && forall k: nat {:trigger StepAt(run, k)} :: k + 1 < |run| ==> StepAt(run, k)
  }

  ghost predicate Reached(s: State) {
    exists run :: Run(run) && run[|run| - 1] == s
  }

  // ---------- Counting threads ----------

  function One(t: Thread, m: Mark): nat { if Has(t, m) then 1 else 0 }

  function Count(ts: seq<Thread>, m: Mark): nat {
    if ts == [] then 0 else Count(ts[..|ts| - 1], m) + One(ts[|ts| - 1], m)
  }

  lemma {:induction false} CountUpdate(ts: seq<Thread>, k: nat, t: Thread, m: Mark)
    requires k < |ts|
    ensures Count(ts[k := t], m) == Count(ts, m) - One(ts[k], m) + One(t, m)
  {
    var n := |ts| - 1;
    if k == n {
      assert ts[k := t][..n] == ts[..n];
    } else {
      assert ts[k := t][..n] == ts[..n][k := t];
      CountUpdate(ts[..n], k, t, m);
    }
  }

  lemma CountAppend(ts: seq<Thread>, t: Thread, m: Mark)
    ensures Count(ts + [t], m) == Count(ts, m) + One(t, m)
  {
    assert (ts + [t])[..|ts|] == ts;
  }

  lemma {:induction false} CountSome(ts: seq<Thread>, m: Mark, k: nat)
    requires k < |ts| && Has(ts[k], m)
    ensures Count(ts, m) >= 1
  {
    if k < |ts| - 1 { CountSome(ts[..|ts| - 1], m, k); }
  }

  lemma {:induction false} CountTwo(ts: seq<Thread>, m: Mark, j: nat, k: nat)
    requires j < k < |ts| && Has(ts[j], m) && Has(ts[k], m)
    ensures Count(ts, m) >= 2
  {
    if k < |ts| - 1 { CountTwo(ts[..|ts| - 1], m, j, k); }
    else { CountSome(ts[..|ts| - 1], m, j); }
  }

  lemma {:induction false} Witness(ts: seq<Thread>, m: Mark) returns (k: nat)
    requires Count(ts, m) >= 1
    ensures k < |ts| && Has(ts[k], m)
  {
    k := |ts| - 1;
    if !Has(ts[k], m) { k := Witness(ts[..k], m); }
  }

  lemma {:induction false} CountAtMost(ts: seq<Thread>, a: Mark, b: Mark)
    requires forall k: nat {:trigger ts[k]} :: k < |ts| && Has(ts[k], a) ==> Has(ts[k], b)
    ensures Count(ts, a) <= Count(ts, b)
  {
    if ts != [] { CountAtMost(ts[..|ts| - 1], a, b); }
  }

  // ---------- Conservation ----------

  function Surplus(ts: seq<Thread>, l: Lock): nat {
    if l == Red then Count(ts, Extra) else 0
  }

  /** The value of a semaphore and the number of its holders add up to one, except that the red lock has
      one unit more for every command that posted it without having taken it. */
  predicate Balanced(s: State, l: Lock) {
    && Value(s, l) >= 0
    && Value(s, l) + Count(s.threads, Holding(l)) == 1 + Surplus(s.threads, l)
  }

  function Change(t: Thread, free: bool, l: Lock): int {
    if Wants(t) == Some(l) || (Tries(t) && free && l == Red) then -1
    else if Posts(t) == Some(l) then 1 else 0
  }

  /** One call of a thread changes the semaphore by exactly what it changes in the books. */
  lemma CallBalanced(t: Thread, free: bool, l: Lock)
    requires Unfinished(t)
    ensures var u := After(t, free);
      One(u, Holding(l)) - One(t, Holding(l)) + Change(t, free, l)
      == if l == Red then One(u, Extra) - One(t, Extra) else 0
  {}

  lemma MoveBalanced(s: State, k: nat, l: Lock)
    requires Balanced(s, l) && CanMove(s, k)
    ensures Balanced(Move(s, k), l)
  {
    var t, free := s.threads[k], Value(s, Red) > 0;
    CountUpdate(s.threads, k, After(t, free), Holding(l));
    CountUpdate(s.threads, k, After(t, free), Extra);
    CallBalanced(t, free, l);
    assert Value(Move(s, k), l) == Value(s, l) + Change(t, free, l);
  }

  lemma SpawnBalanced(s: State, t: Thread, l: Lock)
    requires Balanced(s, l) && Starting(t)
    ensures Balanced(Spawn(s, t), l)
  {
    CountAppend(s.threads, t, Holding(l));
    CountAppend(s.threads, t, Extra);
  }

  lemma {:induction false} RunBalanced(run: seq<State>, l: Lock)
    requires Run(run)
    ensures Balanced(run[|run| - 1], l)
  {
    var n := |run| - 1;
    if n > 0 {
      assert Run(run[..n]) by {
        forall k: nat {:trigger StepAt(run[..n], k)} | k + 1 < n ensures StepAt(run[..n], k) {
          assert StepAt(run, k);
        }
      }
      RunBalanced(run[..n], l);
      var s, u := run[n - 1], run[n];
      assert StepAt(run, n - 1);
      if k: nat :| CanMove(s, k) && u == Move(s, k) { MoveBalanced(s, k, l); }
      else {
        var t :| Starting(t) && u == Spawn(s, t);
        SpawnBalanced(s, t, l);
      }
    }
  }

  /** In every reachable state every semaphore is balanced. */
  lemma Conservation(s: State, l: Lock)
    requires Reached(s)
    ensures Balanced(s, l)
  {
    var run :| Run(run) && run[|run| - 1] == s;
    RunBalanced(run, l);
  }

  // ---------- Exclusion ----------

  /** Nobody else holds a lock that a thread holds, unless it is the red lock after a stray post. */
  lemma Exclusive(s: State, l: Lock, j: nat, k: nat)
    requires Reached(s) && j < |s.threads| && k < |s.threads|
    requires Holds(s.threads[j], l) && Holds(s.threads[k], l)
    requires l == Red ==> Count(s.threads, Extra) == 0
    ensures j == k
  {
    Conservation(s, l);
    if j < k { CountTwo(s.threads, Holding(l), j, k); }
    if k < j { CountTwo(s.threads, Holding(l), k, j); }
  }

  /** However the threads interleave, a round that copies is the only thread holding any of the three
      servers of its group. */
  lemma CopyIsExclusive(s: State, k: nat, j: nat, server: nat)
    requires Reached(s) && k < |s.threads| && Copying(s.threads[k])
    requires Placement.SameGroup(server, s.threads[k].index)
    requires j < |s.threads|
    ensures Holds(s.threads[j], Server(server)) <==> j == k
    ensures Value(s, Server(server)) == 0
  {
    var i := s.threads[k].index;
    assert server == i || server == First(i) || server == Second(i);
    Conservation(s, Server(server));
    CountSome(s.threads, Holding(Server(server)), k);
    if Holds(s.threads[j], Server(server)) { Exclusive(s, Server(server), j, k); }
  }

  /** There is at most one active round more than there were stray posts of the red lock. */
  lemma ActiveRounds(s: State)
    requires Reached(s)
    ensures Count(s.threads, Active) <= 1 + Count(s.threads, Extra)
  {
    Conservation(s, Red);
    CountAtMost(s.threads, Active, Holding(Red));
  }

  /** Every sem_trywait that was made succeeded. */
  predicate AllTook(s: State) {
    forall k: nat :: k < |s.threads| && s.threads[k].Command? && s.threads[k].pc >= 2
                     ==> s.threads[k].took
  }

  lemma NoStrayPosts(s: State)
    requires AllTook(s)
    ensures Count(s.threads, Extra) == 0
  {
    if Count(s.threads, Extra) >= 1 { var k := Witness(s.threads, Extra); }
  }

  /** Rounds exclude each other, and a round and the command that took the red lock do too. */
  lemma OneRound(s: State, j: nat, k: nat)
    requires Reached(s) && AllTook(s) && j < |s.threads| && k < |s.threads|
    requires Has(s.threads[j], Active) && Holds(s.threads[k], Red)
    ensures j == k
  {
    NoStrayPosts(s);
    Exclusive(s, Red, j, k);
  }

  // ---------- No circular wait ----------

  /** Thread j waits for a lock that thread k holds. */
  predicate WaitsFor(s: State, j: nat, k: nat) {
    && j < |s.threads| && k < |s.threads|
    && Blocked(s, s.threads[j]) && Holds(s.threads[k], Wants(s.threads[j]).value)
  }

  /** What every waits-for edge brings down. */
  function Rank(t: Thread): nat {
    match Wants(t)
    case None => 0
    case Some(Server(_)) => if t.Round? then 1 else 2
    case Some(_) => 3
  }

  lemma WaitsDown(s: State, j: nat, k: nat)
    requires Reached(s) && Count(s.threads, Extra) == 0
    requires WaitsFor(s, j, k)
    ensures Rank(s.threads[k]) < Rank(s.threads[j])
  {
    var t, u := s.threads[j], s.threads[k];
    if t.Round? && t.pc > 0 && u.Round? {
      Exclusive(s, Red, j, k);
    }
  }

  /** Each thread of the ring waits for the next one, and the last for the first. */
  ghost predicate Ring(s: State, ring: seq<nat>) {
    && |ring| > 0
    && forall i: nat {:trigger Follows(s, ring, i)} :: i < |ring| ==> Follows(s, ring, i)
  }

  predicate Follows(s: State, ring: seq<nat>, i: nat)
    requires i < |ring|
  {
    WaitsFor(s, ring[if i > 0 then i - 1 else |ring| - 1], ring[i])
  }

  // ---------- Exactly when rounds block each other ----------

  /** A round that waits to start can take the red lock at once if and only if there are at least as many
      stray posts of it as holders. So another round keeps it out only as long as there are fewer. */
  lemma RoundStartsExactly(s: State, k: nat)
    requires Reached(s) && k < |s.threads| && s.threads[k].Round? && s.threads[k].pc == 0
    ensures CanMove(s, k) <==> Count(s.threads, Extra) >= Count(s.threads, Holding(Red))
  {
    Conservation(s, Red);
  }

  /** A round that holds some of its server locks and waits for the next one. */
  predicate Midway(t: Thread) { t.Round? && 2 <= t.pc <= 3 }

  /** Two rounds of one group, that of the group's first server and another one; one of them has taken one
      server lock and the other has taken two. */
  predicate Crossing(s: State, j: nat, k: nat) {
    && j < |s.threads| && k < |s.threads| && Midway(s.threads[j]) && Midway(s.threads[k])
    && Placement.SameGroup(s.threads[j].index, s.threads[k].index)
    && s.threads[j].index % 3 == 0 && s.threads[k].index % 3 != 0
    && s.threads[j].pc + s.threads[k].pc == 5
  }

  /** Midway rounds of one group have taken the same lock first unless exactly one of them is that of the
      group's first server. */
  lemma SameFirst(s: State, j: nat, k: nat)
    requires Reached(s) && j < |s.threads| && k < |s.threads| && Midway(s.threads[j]) && Midway(s.threads[k])
    requires Placement.SameGroup(s.threads[j].index, s.threads[k].index)
    requires s.threads[j].index % 3 == 0 <==> s.threads[k].index % 3 == 0
    ensures j == k
  {
    Exclusive(s, Server(First(s.threads[j].index)), j, k);
  }

  /** What a thread holds is taken. */
  lemma Taken(s: State, l: Lock, k: nat)
    requires Reached(s) && k < |s.threads| && Holds(s.threads[k], l) && l != Red
    ensures Value(s, l) == 0
  {
    Conservation(s, l);
    CountSome(s.threads, Holding(l), k);
  }

  /** Rounds that cross wait for each other. */
  lemma CrossingWaits(s: State, j: nat, k: nat)
    requires Reached(s) && Crossing(s, j, k)
    ensures WaitsFor(s, j, k) && WaitsFor(s, k, j)
  {
    var t, u := s.threads[j], s.threads[k];
    if t.pc == 2 && u.index % 3 == 2 {
      Exclusive(s, Server(First(t.index)), j, k);
    }
    Taken(s, Wants(t).value, k);
    Taken(s, Wants(u).value, j);
  }

  /** Two midway rounds that wait for each other cross. */
  lemma MutualCrosses(s: State, j: nat, k: nat)
    requires Reached(s) && WaitsFor(s, j, k) && WaitsFor(s, k, j)
    requires Midway(s.threads[j]) && Midway(s.threads[k])
    ensures Crossing(s, j, k) || Crossing(s, k, j)
  {
    var t, u := s.threads[j], s.threads[k];
    if t.index % 3 == 0 <==> u.index % 3 == 0 {
      SameFirst(s, j, k);
    } else if t.pc == 3 && u.pc == 3 {
      SecondsMeet(s, j, k);
    }
  }

  /** Two servers of a group keep their copies on one server in common. */
  lemma Shared(i: nat, j: nat) returns (server: nat)
    requires i == First(j) || i == Second(j)
    ensures server == First(i) || server == Second(i)
    ensures server == First(j) || server == Second(j)
  {
    server := if First(i) == First(j) || First(i) == Second(j) then First(i) else Second(i);
  }

  lemma SecondsMeet(s: State, j: nat, k: nat)
    requires Reached(s) && WaitsFor(s, j, k) && Midway(s.threads[j]) && Midway(s.threads[k])
    ensures !(s.threads[j].pc == 3 && s.threads[k].pc == 3)
  {
    var t, u := s.threads[j], s.threads[k];
    if t.pc == 3 && u.pc == 3 {
      var l := Shared(t.index, u.index);
      Exclusive(s, Server(l), j, k);
    }
  }

  /** Whoever is waited for by a thread that is waited for itself, and waits, is a midway round. */
  lemma MiddleIsMidway(s: State, a: nat, b: nat, c: nat, d: nat)
    requires WaitsFor(s, a, b) && WaitsFor(s, b, c) && WaitsFor(s, c, d)
    ensures Midway(s.threads[c])
  {}

  /** One midway round waits for another: they are rounds of one group, and one is that of its first server. */
  lemma MidwayEdge(s: State, j: nat, k: nat)
    requires Reached(s) && WaitsFor(s, j, k) && Midway(s.threads[j]) && Midway(s.threads[k])
    ensures Placement.SameGroup(s.threads[j].index, s.threads[k].index)
    ensures s.threads[j].index % 3 == 0 <==> s.threads[k].index % 3 != 0
  {
    assert Placement.SameGroup(s.threads[j].index, s.threads[k].index);
    if s.threads[j].index % 3 == 0 <==> s.threads[k].index % 3 == 0 {
      SameFirst(s, j, k);
    }
  }

  /** A midway round waits for one that waits for it, if for any that waits. */
  lemma EdgesAreMutual(s: State, j: nat, k: nat, l: nat)
    requires Reached(s) && WaitsFor(s, j, k) && WaitsFor(s, k, l)
    requires Midway(s.threads[j]) && Midway(s.threads[k]) && Midway(s.threads[l])
    ensures l == j
  {
    MidwayEdge(s, j, k);
    MidwayEdge(s, k, l);
    SameFirst(s, j, l);
  }

  function Prev(ring: seq<nat>, i: nat): nat
    requires i < |ring|
  {
    if i > 0 then i - 1 else |ring| - 1
  }

  /** Every member of a circular wait is a midway round. */
  lemma RingIsMidway(s: State, ring: seq<nat>, i: nat)
    requires Ring(s, ring) && i < |ring|
    ensures ring[i] < |s.threads| && Midway(s.threads[ring[i]])
  {
    var next := if i + 1 < |ring| then i + 1 else 0;
    assert Follows(s, ring, next) && Follows(s, ring, i);
    assert Follows(s, ring, Prev(ring, i));
    MiddleIsMidway(s, ring[Prev(ring, Prev(ring, i))], ring[Prev(ring, i)], ring[i], ring[next]);
  }

  /** A reachable state holds a circular wait, of whatever length, exactly when two rounds cross in it. */
  lemma CircularWaitExactly(s: State)
    requires Reached(s)
    ensures (exists ring :: Ring(s, ring)) <==> exists j, k :: Crossing(s, j, k)
  {
    if ring :| Ring(s, ring) {
      var j, k := RingCrosses(s, ring);
    }
    if j, k :| Crossing(s, j, k) {
      CrossingWaits(s, j, k);
      assert Follows(s, [j, k], 0) && Follows(s, [j, k], 1);
      assert Ring(s, [j, k]);
    }
  }

  lemma RingCrosses(s: State, ring: seq<nat>) returns (j: nat, k: nat)
    requires Reached(s) && Ring(s, ring)
    ensures Crossing(s, j, k)
  {
    var next := if 1 < |ring| then 1 else 0;
    j, k := ring[Prev(ring, 0)], ring[0];
    RingIsMidway(s, ring, Prev(ring, 0));
    RingIsMidway(s, ring, 0);
    RingIsMidway(s, ring, next);
    assert Follows(s, ring, 0) && Follows(s, ring, next);
    EdgesAreMutual(s, j, k, ring[next]);
    MutualCrosses(s, j, k);
    if !Crossing(s, j, k) {
      j, k := k, j;
    }
  }

  /** Rounds that cross stay where they are for ever. */
  lemma CrossingStays(s: State, u: State, j: nat, k: nat)
    requires Reached(s) && Crossing(s, j, k) && Step(s, u)
    ensures Crossing(u, j, k)
  {
    CrossingWaits(s, j, k);
  }

  /** No circular wait is reachable without a stray post, although the rounds of one group take their
      three server locks in different orders. */
  lemma NoCircularWait(s: State, ring: seq<nat>)
    requires Reached(s) && Count(s.threads, Extra) == 0
    ensures !Ring(s, ring)
  {
    if Ring(s, ring) {
      var j, k := RingCrosses(s, ring);
      Exclusive(s, Red, j, k);
    }
  }

  /** As long as no two rounds cross, a waiting thread always waits, directly or through others, for one that
      can move. */
  lemma {:induction false} SomeoneMoves(s: State, j: nat) returns (k: nat)
    requires Reached(s) && forall a, b :: !Crossing(s, a, b)
    requires j < |s.threads| && Unfinished(s.threads[j])
    ensures CanMove(s, k)
    decreases Rank(s.threads[j])
  {
    if !Blocked(s, s.threads[j]) { return j; }
    k := HolderOf(s, j);
    if Rank(s.threads[k]) < Rank(s.threads[j]) {
      k := SomeoneMoves(s, k);
    } else {
      k := MidwayMoves(s, k);
    }
  }

  /** A midway round waits for a thread that can move, or for another midway round that does. */
  lemma MidwayMoves(s: State, j: nat) returns (k: nat)
    requires Reached(s) && forall a, b :: !Crossing(s, a, b)
    requires j < |s.threads| && Midway(s.threads[j])
    ensures CanMove(s, k)
  {
    k := j;
    if Blocked(s, s.threads[j]) {
      k := HolderOf(s, j);
      if Blocked(s, s.threads[k]) {
        var h := HolderOf(s, k);
        if Blocked(s, s.threads[h]) {
          EdgesAreMutual(s, j, k, h);
          MutualCrosses(s, j, k);
        }
        k := h;
      }
    }
  }

  lemma HolderOf(s: State, j: nat) returns (k: nat)
    requires Reached(s) && j < |s.threads| && Blocked(s, s.threads[j])
    ensures WaitsFor(s, j, k) && Unfinished(s.threads[k])
    ensures Rank(s.threads[k]) < Rank(s.threads[j]) || (s.threads[j].Round? && Midway(s.threads[k]))
    ensures Midway(s.threads[j]) && Blocked(s, s.threads[k]) ==> Midway(s.threads[k])
  {
    var l := Wants(s.threads[j]).value;
    Conservation(s, l);
    k := Witness(s.threads, Holding(l));
  }

  // ---------- With a stray post ----------

  lemma Then(s: State, u: State)
    requires Reached(s) && Step(s, u)
    ensures Reached(u)
  {
    var run :| Run(run) && run[|run| - 1] == s;
    var more := run + [u];
    forall k: nat {:trigger StepAt(more, k)} | k + 1 < |more| ensures StepAt(more, k) {
      if k + 1 < |run| { assert StepAt(run, k); }
    }
    assert Run(more);
  }

  lemma ThenMove(s: State, k: nat)
    requires Reached(s) && CanMove(s, k)
    ensures Reached(Move(s, k))
  {
    Then(s, Move(s, k));
  }

  lemma ThenSpawn(s: State, t: Thread)
    requires Reached(s) && Starting(t)
    ensures Reached(Spawn(s, t))
  {
    Then(s, Spawn(s, t));
  }

  /** Two rounds of one group and a command that touches no server. */
  function Cast(g: nat, a: nat, b: nat, c: nat, n: nat, took: bool): seq<Thread> {
    [Round(3 * g, a), Round(3 * g + 2, b), Command(c, [], n, took)]
  }

  lemma CastIsSpawned(g: nat, c: nat)
    ensures Reached(State(map[], Cast(g, 0, 0, c, 0, false)))
  {
    assert Run([INITIAL]);
    assert Reached(INITIAL);
    ThenSpawn(INITIAL, Round(3 * g, 0));
    var s := Spawn(INITIAL, Round(3 * g, 0));
    ThenSpawn(s, Round(3 * g + 2, 0));
    s := Spawn(s, Round(3 * g + 2, 0));
    ThenSpawn(s, Command(c, [], 0, false));
    assert Spawn(s, Command(c, [], 0, false)) == State(map[], Cast(g, 0, 0, c, 0, false));
  }

  /** While the first round is active, the command fails to take the red lock and posts it. */
  lemma StrayPost(g: nat, c: nat)
    ensures Reached(State(map[Red := 1, Client(c) := 0], Cast(g, 1, 0, c, 4, false)))
  {
    CastIsSpawned(g, c);
    var s := State(map[], Cast(g, 0, 0, c, 0, false));
    ThenMove(s, 0);
    s := State(map[Red := 0], Cast(g, 1, 0, c, 0, false));
    ThenMove(s, 2);
    s := State(map[Red := 0, Client(c) := 0], Cast(g, 1, 0, c, 1, false));
    ThenMove(s, 2);
    s := State(map[Red := 0, Client(c) := 0], Cast(g, 1, 0, c, 2, false));
    ThenMove(s, 2);
  }

  function Crossed(g: nat, c: nat): State {
    State(map[Red := 0, Client(c) := 0, Server(3 * g + 1) := 0, Server(3 * g + 2) := 0, Server(3 * g) := 0],
          Cast(g, 3, 2, c, 4, false))
  }

  lemma SecondRoundActive(g: nat, c: nat)
    ensures Reached(State(map[Red := 0, Client(c) := 0, Server(3 * g + 1) := 0], Cast(g, 2, 1, c, 4, false)))
  {
    StrayPost(g, c);
    ThenMove(State(map[Red := 1, Client(c) := 0], Cast(g, 1, 0, c, 4, false)), 1);
    ThenMove(State(map[Red := 0, Client(c) := 0], Cast(g, 1, 1, c, 4, false)), 0);
  }

  lemma FirstRoundWaits(g: nat, c: nat)
    ensures Reached(State(map[Red := 0, Client(c) := 0, Server(3 * g + 1) := 0, Server(3 * g + 2) := 0],
                          Cast(g, 3, 1, c, 4, false)))
  {
    SecondRoundActive(g, c);
    var s := map[Red := 0, Client(c) := 0, Server(3 * g + 1) := 0];
    ThenMove(State(s, Cast(g, 2, 1, c, 4, false)), 0);
  }

  lemma CrossedReached(g: nat, c: nat)
    ensures Reached(Crossed(g, c))
  {
    FirstRoundWaits(g, c);
    var s := map[Red := 0, Client(c) := 0, Server(3 * g + 1) := 0, Server(3 * g + 2) := 0];
    ThenMove(State(s, Cast(g, 3, 1, c, 4, false)), 1);
    assert s[Server(3 * g) := 0] == Crossed(g, c).sem;
  }

  /** One stray post is enough for two rounds of one group to be active and to wait for each other. */
  lemma StrayPostDeadlocks(g: nat, c: nat)
    ensures Reached(Crossed(g, c)) && Count(Crossed(g, c).threads, Extra) == 1
    ensures Has(Crossed(g, c).threads[0], Active) && Has(Crossed(g, c).threads[1], Active)
    ensures Ring(Crossed(g, c), [0, 1])
  {
    CrossedReached(g, c);
    CountCast(Crossed(g, c).threads, Extra);
    CrossedWaits(g, c);
  }

  lemma CountCast(ts: seq<Thread>, m: Mark)
    requires |ts| == 3
    ensures Count(ts, m) == One(ts[0], m) + One(ts[1], m) + One(ts[2], m)
  {
    CountAppend([], ts[0], m);
    CountAppend([ts[0]], ts[1], m);
    CountAppend([ts[0], ts[1]], ts[2], m);
    assert [] + [ts[0]] == [ts[0]] && [ts[0]] + [ts[1]] == [ts[0], ts[1]] && [ts[0], ts[1]] + [ts[2]] == ts;
  }

  lemma CrossedWaits(g: nat, c: nat)
    ensures Ring(Crossed(g, c), [0, 1])
  {
    var s := Crossed(g, c);
    var r0, r2 := Round(3 * g, 3), Round(3 * g + 2, 2);
    assert s.threads[0] == r0 && s.threads[1] == r2;
    assert Wants(r0) == Some(Server(3 * g)) && Holds(r2, Server(3 * g));
    assert Wants(r2) == Some(Server(3 * g + 1)) && Holds(r0, Server(3 * g + 1));
    assert WaitsFor(s, 0, 1) && WaitsFor(s, 1, 0);
    assert Follows(s, [0, 1], 0) && Follows(s, [0, 1], 1);
  }
}
