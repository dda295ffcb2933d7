/** The process pool's parent: round-robin dispatch of connections to children, some
of which die on the way. */
module RoundRobin {

  const MAX_PROCESS_NUMBER := 16

  /** How far child `x` is from the counter, going round the ring of `n`. */
  function Dist(n: nat, counter: nat, x: nat): nat
    requires counter < n && x < n
  {
    if x >= counter then x - counter else x - counter + n
  }

  /** Child `c` is the first live one, going round from the counter. */
  ghost predicate IsNext(alive: seq<bool>, counter: nat, c: nat) {
    && counter < |alive| && c < |alive| && alive[c]
    && forall x :: 0 <= x < |alive| && alive[x] ==> Dist(|alive|, counter, c) <= Dist(|alive|, counter, x)
  }

  lemma Around(i: nat, n: nat)
    requires i < n
    ensures (i + 1) % n == if i + 1 == n then 0 else i + 1
  {
  }

  class Pool {
    const pids: array<int>   // -1 for a child that has exited
    var counter: nat
    var stop: bool

    ghost predicate Valid()
      reads this
    {
      0 < pids.Length <= MAX_PROCESS_NUMBER && counter < pids.Length
    }

    ghost function Alive(): seq<bool>
      reads pids
    {
      seq(pids.Length, i requires 0 <= i < pids.Length reads pids => pids[i] != -1)
    }

    constructor (children: seq<int>)
      requires 0 < |children| <= MAX_PROCESS_NUMBER
      ensures Valid() && fresh(pids) && pids[..] == children && counter == 0 && !stop
    {
      pids := new int[|children|](i requires 0 <= i < |children| => children[i]);
      counter, stop := 0, false;
    }

    /** The search: once round the ring from the counter, or to the first live child. */
    method FindLive() returns (i: nat)
      requires Valid()
      ensures i < pids.Length
      ensures pids[i] == -1 ==> forall x :: 0 <= x < pids.Length ==> pids[x] == -1
      ensures forall x :: 0 <= x < pids.Length && Dist(pids.Length, counter, x) < Dist(pids.Length, counter, i) ==>
                pids[x] == -1
    {
      var n := pids.Length;
      var first := true;
      ghost var k := 0;   // children passed over
      i := counter;
      while pids[i] == -1 && (first || i != counter)
        invariant k <= n && (first <==> k == 0)
        invariant i == if counter + k < n then counter + k else counter + k - n
        invariant forall x :: 0 <= x < n && Dist(n, counter, x) < k ==> pids[x] == -1
        decreases n - k
      {
        Around(i, n);
        i, first, k := (i + 1) % n, false, k + 1;
      }
      assert pids[i] == -1 ==> forall x :: 0 <= x < n ==> Dist(n, counter, x) < k;
    }

    /** Chooses a child for a new connection; with none alive the pool stops. */
    method Dispatch() returns (child: int)
      requires Valid()
      modifies `counter, `stop
      ensures Valid()
      ensures child == -1 <==> forall x :: 0 <= x < pids.Length ==> pids[x] == -1
      ensures child == -1 ==> stop && counter == old(counter)
      ensures child != -1 ==> 0 <= child && IsNext(Alive(), old(counter), child)
      ensures child != -1 ==> counter == (child + 1) % pids.Length && stop == old(stop)
    {
      var i := FindLive();
      if pids[i] == -1 {
        stop := true;
        return -1;
      }
      Around(i, pids.Length);
      counter := (i + 1) % pids.Length;
      child := i;
    }

    /** One reaped child: its slot, if it has one, is marked. */
    method Reap(pid: int)
      requires Valid() && pid > 0
      modifies pids
      ensures forall i :: 0 <= i < pids.Length ==> pids[i] == if old(pids[i]) == pid then -1 else old(pids[i])
    {
      for i := 0 to pids.Length
        invariant forall j :: 0 <= j < i ==> pids[j] == if old(pids[j]) == pid then -1 else old(pids[j])
        invariant forall j :: i <= j < pids.Length ==> pids[j] == old(pids[j])
      {
        if pids[i] == pid { pids[i] := -1; }
      }
    }

    /** SIGCHLD: reaps every child that has exited; the pool goes on iff one is left. */
    method OnSigChld(dead: seq<int>)
      requires Valid() && forall k :: 0 <= k < |dead| ==> dead[k] > 0
      modifies `stop, pids
      ensures Valid()
      ensures forall i :: 0 <= i < pids.Length ==> pids[i] == if old(pids[i]) in dead then -1 else old(pids[i])
      ensures stop <==> forall i :: 0 <= i < pids.Length ==> pids[i] == -1
    {
      for k := 0 to |dead|
        invariant Valid()
        invariant forall i :: 0 <= i < pids.Length ==> pids[i] == if old(pids[i]) in dead[..k] then -1 else old(pids[i])
      {
        assert dead[..k + 1] == dead[..k] + [dead[k]];
        Reap(dead[k]);
      }
      assert dead[..|dead|] == dead;
      stop := true;
      for i := 0 to pids.Length
        modifies `stop
        invariant stop <==> forall j :: 0 <= j < i ==> pids[j] == -1
      {
        if pids[i] != -1 { stop := false; }
      }
    }
  }

  // ---------- fairness over whole runs ----------

  datatype Event = Sent(c: nat) | Died(dead: set<nat>)
  datatype State = State(alive: seq<bool>, counter: nat)

  ghost predicate Next(s: State, e: Event, s': State) {
    && s.counter < |s.alive| == |s'.alive|
    && match e
       case Sent(c) => IsNext(s.alive, s.counter, c) && s' == s.(counter := (c + 1) % |s.alive|)
       case Died(dead) =>
         && s'.counter == s.counter
         && forall i :: 0 <= i < |s.alive| ==> (s'.alive[i] <==> s.alive[i] && i !in dead)
  }

  ghost predicate Run(states: seq<State>, events: seq<Event>) {
    && |states| == |events| + 1
    && forall i :: 0 <= i < |events| ==> Next(states[i], events[i], states[i + 1])
  }

  /** How many of the events `from` up to `to` are dispatches to `d`. */
  function Count(events: seq<Event>, d: nat, from: nat, to: nat): nat
    requires from <= to <= |events|
  {
    if from == to then 0 else Count(events, d, from, to - 1) + if events[to - 1] == Sent(d) then 1 else 0
  }

  /** After a dispatch to `e` everyone behind it is that much closer, and `e` is last. */
  lemma DistShift(n: nat, counter: nat, e: nat, x: nat)
    requires counter < n && e < n && x < n && Dist(n, counter, e) <= Dist(n, counter, x)
    ensures Dist(n, (e + 1) % n, x) ==
            if x == e then n - 1 else Dist(n, counter, x) - Dist(n, counter, e) - 1
  {
    Around(e, n);
  }

  lemma {:induction false} StaysAlive(states: seq<State>, events: seq<Event>, d: nat, k: nat, b: nat)
    requires Run(states, events) && k <= b <= |events| && d < |states[b].alive| && states[b].alive[d]
    ensures |states[k].alive| == |states[b].alive| && states[k].alive[d]
    decreases b - k
  {
    if k < b {
      StaysAlive(states, events, d, k + 1, b);
      assert Next(states[k], events[k], states[k + 1]);
    }
  }

  /** Since the last dispatch to `c`: either `d` has not been served and is ahead of
  `c`, or it has been served once and is behind. */
  ghost predicate Phase(s: State, c: nat, d: nat, served: nat) {
    var n := |s.alive|;
    && s.counter < n && c < n && d < n
    && if served == 0 then Dist(n, s.counter, d) < Dist(n, s.counter, c)
       else served == 1 && Dist(n, s.counter, c) < Dist(n, s.counter, d)
  }

  lemma PhaseStart(s: State, s': State, c: nat, d: nat)
    requires Next(s, Sent(c), s') && c != d && d < |s.alive|
    ensures Phase(s', c, d, 0)
  {
    DistShift(|s.alive|, s.counter, c, c);
  }

  lemma PhaseStep(s: State, e: Event, s': State, c: nat, d: nat, served: nat)
    requires Next(s, e, s') && e != Sent(c) && c != d && Phase(s, c, d, served) && s.alive[c] && s.alive[d]
    ensures Phase(s', c, d, served + if e == Sent(d) then 1 else 0)
  {
    if e.Sent? {
      DistShift(|s.alive|, s.counter, e.c, c);
      DistShift(|s.alive|, s.counter, e.c, d);
    }
  }

  lemma {:induction false} TurnOrder(states: seq<State>, events: seq<Event>, c: nat, d: nat, a: nat, k: nat, b: nat)
    requires Run(states, events) && a < k <= b < |events| && c != d
    requires events[a] == Sent(c) && forall i :: a < i < b ==> events[i] != Sent(c)
    requires c < |states[b].alive| && d < |states[b].alive| && states[b].alive[c] && states[b].alive[d]
    ensures Phase(states[k], c, d, Count(events, d, a + 1, k))
    decreases k
  {
    StaysAlive(states, events, c, k - 1, b);
    StaysAlive(states, events, d, k - 1, b);
    assert Next(states[k - 1], events[k - 1], states[k - 1 + 1]);
    if k > a + 1 {
      TurnOrder(states, events, c, d, a, k - 1, b);
      PhaseStep(states[k - 1], events[k - 1], states[k], c, d, Count(events, d, a + 1, k - 1));
    } else {
      PhaseStart(states[k - 1], states[k], c, d);
    }
  }

  /** Between two consecutive dispatches to one child, every other child that is alive
  throughout gets exactly one. */
  lemma RoundRobinIsFair(states: seq<State>, events: seq<Event>, c: nat, d: nat, a: nat, b: nat)
    requires Run(states, events) && a < b < |events| && c != d
    requires events[a] == events[b] == Sent(c) && forall i :: a < i < b ==> events[i] != Sent(c)
    requires d < |states[b].alive| && states[b].alive[d]
    ensures Count(events, d, a + 1, b) == 1
  {
    assert Next(states[b], events[b], states[b + 1]);
    TurnOrder(states, events, c, d, a, b, b);
  }
}
