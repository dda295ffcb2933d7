/** Who may touch a connection of the web server: the one-shot epoll registration,
the main loop's batch of events, the pool's queue and the workers pass each
connection around like a token.  Connections are named by descriptor. */
module ConnectionOwnership {
  import opened Chains

  /** `Closed` is the moment between a worker's close_conn and its final modfd. */
  datatype Worker = Free | Processing(c: nat) | Closed(c: nat)

  datatype State = State(
    open: set<nat>,        // descriptors whose object has m_sockfd set
    armed: set<nat>,       // descriptors whose next event epoll will report
    batch: seq<nat>,       // reported events the main loop has not handled yet
    queue: seq<nat>,       // the pool's requests
    workers: seq<Worker>)

  datatype Action =
    | Accept(c: nat)         // init: registers one-shot
    | Poll(events: seq<nat>) // epoll_wait: reporting disarms
    | MainClose              // hang-up, failed read, or write that ends the connection
    | MainEnqueue            // successful read, append succeeded
    | MainDrop               // successful read, append refused
    | MainRearm              // write calls modfd
    | Pop(w: nat)
    | WorkerRearm(w: nat)    // process ends in modfd on an open connection
    | WorkerClose(w: nat)    // process_write failed: close_conn
    | WorkerModfd(w: nat)    // the modfd that follows close_conn

  ghost predicate Enabled(s: State, a: Action) {
    match a
    case Accept(c) => c !in s.open
    case Poll(events) => s.batch == [] && Distinct(events) && forall c :: c in events ==> c in s.armed
    case MainClose => s.batch != []
    case MainEnqueue => s.batch != []
    case MainDrop => s.batch != []
    case MainRearm => s.batch != []
    case Pop(w) => w < |s.workers| && s.workers[w].Free? && s.queue != []
    case WorkerRearm(w) => w < |s.workers| && s.workers[w].Processing?
    case WorkerClose(w) => w < |s.workers| && s.workers[w].Processing?
    case WorkerModfd(w) => w < |s.workers| && s.workers[w].Closed?
  }

  function Next(s: State, a: Action): State
    requires Enabled(s, a)
  {
    match a
    case Accept(c) => s.(open := s.open + {c}, armed := s.armed + {c})
    case Poll(events) => s.(armed := s.armed - (set c | c in events), batch := events)
    case MainClose => s.(open := s.open - {s.batch[0]}, batch := s.batch[1..])
    case MainEnqueue => s.(queue := s.queue + [s.batch[0]], batch := s.batch[1..])
    case MainDrop => s.(batch := s.batch[1..])
    case MainRearm => s.(armed := s.armed + {s.batch[0]}, batch := s.batch[1..])
    case Pop(w) => s.(queue := s.queue[1..], workers := s.workers[w := Processing(s.queue[0])])
    case WorkerRearm(w) => s.(armed := s.armed + {s.workers[w].c}, workers := s.workers[w := Free])
    case WorkerClose(w) => s.(open := s.open - {s.workers[w].c}, workers := s.workers[w := Closed(s.workers[w].c)])
    case WorkerModfd(w) =>
      // m_sockfd is -1 by now, and modfd fails, unless the descriptor was accepted anew
      s.(armed := if s.workers[w].c in s.open then s.armed + {s.workers[w].c} else s.armed,
         workers := s.workers[w := Free])
  }

  // ---------- tokens ----------

  function Busy(ws: seq<Worker>): multiset<nat> {
    if ws == [] then multiset{}
    else (if ws[0].Processing? then multiset{ws[0].c} else multiset{}) + Busy(ws[1..])
  }

  lemma BusyUpdate(ws: seq<Worker>, i: nat, x: Worker)
    requires i < |ws|
    ensures forall c :: Busy(ws[i := x])[c] + (if ws[i] == Processing(c) then 1 else 0) ==
                        Busy(ws)[c] + (if x == Processing(c) then 1 else 0)
  {
    if i > 0 {
      BusyUpdate(ws[1..], i - 1, x);
      assert ws[i := x][1..] == ws[1..][i - 1 := x];
    }
  }

  /** In how many hands a connection is: armed, in the batch, queued, or with a worker. */
  function Hands(s: State, c: nat): nat {
    (if c in s.armed then 1 else 0) + multiset(s.batch)[c] + multiset(s.queue)[c] + Busy(s.workers)[c]
  }

  /** An open connection is in at most one hand, a closed one in none. */
  ghost predicate Owned(s: State) {
    forall c: nat :: Hands(s, c) <= if c in s.open then 1 else 0
  }

  lemma BatchHands(b: seq<nat>)
    requires b != []
    ensures multiset(b) == multiset{b[0]} + multiset(b[1..])
  {
    assert b == [b[0]] + b[1..];
  }

  /** The main loop reads from `c` and the pool refuses the request. */
  predicate Drops(s: State, a: Action, c: nat) {
    a.MainDrop? && s.batch != [] && s.batch[0] == c
  }

  /** What a step does to the token of `c`: accept makes it, close takes it out of the
  world, a refused request loses it, and every other step leaves it in as many hands as
  before; only a connection that somebody holds can be closed. */
  ghost predicate TokenMoves(s: State, a: Action, s': State, c: nat) {
    && (c !in s'.open ==> Hands(s', c) == 0)
    && (c !in s.open && c in s'.open ==> a == Accept(c) && Hands(s', c) == 1)
    && (c in s.open && c in s'.open ==> Hands(s', c) == Hands(s, c) - if Drops(s, a, c) then 1 else 0)
    && (c in s.open && c !in s'.open ==> Hands(s, c) == 1)
  }

  /** The modfd after a close is treated apart. */
  lemma HandsStep(s: State, a: Action, c: nat)
    requires Enabled(s, a) && Owned(s) && !a.WorkerModfd?
    ensures TokenMoves(s, a, Next(s, a), c)
  {
    if a.Pop? || a.WorkerRearm? || a.WorkerClose? { WorkerHands(s, a, c); } else { MainHands(s, a, c); }
  }

  lemma MainHands(s: State, a: Action, c: nat)
    requires Enabled(s, a) && Owned(s)
    requires !a.Pop? && !a.WorkerRearm? && !a.WorkerClose? && !a.WorkerModfd?
    ensures TokenMoves(s, a, Next(s, a), c)
  {
    assert Hands(s, c) <= if c in s.open then 1 else 0;
    match a
    case Accept(_) =>
    case Poll(events) => DistinctOnce(events);
    case _ => BatchHands(s.batch);
  }

  lemma WorkerHands(s: State, a: Action, c: nat)
    requires Enabled(s, a) && Owned(s) && (a.Pop? || a.WorkerRearm? || a.WorkerClose?)
    ensures TokenMoves(s, a, Next(s, a), c)
  {
    assert Hands(s, c) <= if c in s.open then 1 else 0;
    match a
    case Pop(w) => BatchHands(s.queue); BusyUpdate(s.workers, w, Processing(s.queue[0]));
    case WorkerRearm(w) => BusyUpdate(s.workers, w, Free);
    case WorkerClose(w) => BusyUpdate(s.workers, w, Closed(s.workers[w].c));
  }

  /** The modfd after close_conn is harmless exactly when the descriptor has not been
  accepted anew, or nobody but epoll holds the new connection yet. */
  lemma LateModfd(s: State, w: nat)
    requires Owned(s) && Enabled(s, WorkerModfd(w))
    ensures var c := s.workers[w].c;
            Owned(Next(s, WorkerModfd(w))) <==> c !in s.open || c in s.armed || Hands(s, c) == 0
  {
    var c, s' := s.workers[w].c, Next(s, WorkerModfd(w));
    BusyUpdate(s.workers, w, Free);
    assert Hands(s, c) <= if c in s.open then 1 else 0;
    forall d | d != c ensures Hands(s', d) <= if d in s'.open then 1 else 0 {
      assert Hands(s, d) <= if d in s.open then 1 else 0;
    }
    if c in s.open && c !in s.armed && Hands(s, c) == 1 {
      assert Hands(s', c) == 2;
    }
  }

  // ---------- whole runs ----------

  ghost predicate Init(s: State) {
    s.open == {} && s.armed == {} && s.batch == [] && s.queue == [] &&
    forall w :: 0 <= w < |s.workers| ==> s.workers[w].Free?
  }

  ghost predicate Run(states: seq<State>, actions: seq<Action>) {
    && |states| == |actions| + 1 && Init(states[0])
    && forall i {:trigger Enabled(states[i], actions[i])} :: 0 <= i < |actions| ==>
         Enabled(states[i], actions[i]) && states[i + 1] == Next(states[i], actions[i])
  }

  /** No accept returns a descriptor that a worker has closed but not let go of. */
  ghost predicate NoAcceptInGap(s: State, a: Action) {
    a.Accept? ==> forall w :: 0 <= w < |s.workers| ==> s.workers[w] != Closed(a.c)
  }

  ghost predicate Inv(s: State) {
    Owned(s) && forall w :: 0 <= w < |s.workers| && s.workers[w].Closed? ==> s.workers[w].c !in s.open
  }

  lemma StepInv(s: State, a: Action)
    requires Inv(s) && Enabled(s, a) && NoAcceptInGap(s, a)
    ensures Inv(Next(s, a))
  {
    if a.WorkerModfd? {
      LateModfd(s, a.w);
    } else {
      forall c: nat ensures Hands(Next(s, a), c) <= if c in Next(s, a).open then 1 else 0 {
        HandsStep(s, a, c);
      }
    }
  }

  lemma {:induction false} RunKeepsInv(states: seq<State>, actions: seq<Action>, n: nat)
    requires Run(states, actions) && n <= |actions|
    requires forall i {:trigger NoAcceptInGap(states[i], actions[i])} :: 0 <= i < n ==> NoAcceptInGap(states[i], actions[i])
    ensures Inv(states[n])
  {
    if n == 0 {
      IdleHands(states[0].workers);
    } else {
      RunKeepsInv(states, actions, n - 1);
      assert Enabled(states[n - 1], actions[n - 1]) && states[n - 1 + 1] == Next(states[n - 1], actions[n - 1]);
      StepInv(states[n - 1], actions[n - 1]);
    }
  }

  lemma {:induction false} IdleHands(ws: seq<Worker>)
    requires forall w :: 0 <= w < |ws| ==> ws[w].Free?
    ensures Busy(ws) == multiset{}
  {
    if ws != [] { IdleHands(ws[1..]); }
  }

  lemma {:induction false} BusyMember(ws: seq<Worker>, v: nat, w: nat)
    requires v < w < |ws| && ws[w].Processing?
    ensures Busy(ws)[ws[w].c] >= 1
    ensures ws[v] == ws[w] ==> Busy(ws)[ws[w].c] >= 2
  {
    assert ws[w] == ws[1..][w - 1];
    if v > 0 {
      BusyMember(ws[1..], v - 1, w - 1);
    } else {
      BusyOne(ws[1..], w - 1);
    }
  }

  lemma {:induction false} BusyOne(ws: seq<Worker>, w: nat)
    requires w < |ws| && ws[w].Processing?
    ensures Busy(ws)[ws[w].c] >= 1
  {
    if w > 0 { BusyOne(ws[1..], w - 1); }
  }

  /** What ownership means: a connection with a worker is not armed, not in the
  batch, not queued and with no other worker; the queue and the batch never name
  a connection twice, nor each other's; nothing armed is held. */
  lemma OwnershipIsExclusive(states: seq<State>, actions: seq<Action>, n: nat)
    requires Run(states, actions) && n <= |actions|
    requires forall i {:trigger NoAcceptInGap(states[i], actions[i])} :: 0 <= i < n ==> NoAcceptInGap(states[i], actions[i])
    ensures var s := states[n];
            && Distinct(s.batch) && Distinct(s.queue)
            && (forall c :: c in s.batch ==> c !in s.queue && c !in s.armed)
            && (forall c :: c in s.queue ==> c !in s.armed)
            && (forall w :: 0 <= w < |s.workers| && s.workers[w].Processing? ==>
                  var c := s.workers[w].c;
                  c in s.open && c !in s.armed && c !in s.batch && c !in s.queue)
            && (forall v, w :: 0 <= v < w < |s.workers| && s.workers[w].Processing? ==> s.workers[v] != s.workers[w])
  {
    RunKeepsInv(states, actions, n);
    var s := states[n];
    OnceDistinct(s);
    forall w | 0 <= w < |s.workers| && s.workers[w].Processing?
      ensures var c := s.workers[w].c;
              c in s.open && c !in s.armed && c !in s.batch && c !in s.queue
    {
      BusyOne(s.workers, w);
      assert Hands(s, s.workers[w].c) <= 1;
    }
    forall v, w | 0 <= v < w < |s.workers| && s.workers[w].Processing? ensures s.workers[v] != s.workers[w] {
      BusyMember(s.workers, v, w);
      assert Hands(s, s.workers[w].c) <= 1;
    }
    forall c | c in s.batch || c in s.queue
      ensures !(c in s.batch && c in s.queue) && c !in s.armed
    {
      assert Hands(s, c) <= 1;
    }
  }

  lemma TwiceCounts(b: seq<nat>, i: nat, j: nat)
    requires i < j < |b|
    ensures b[i] == b[j] ==> multiset(b)[b[i]] >= 2
  {
    assert b == b[..i] + [b[i]] + b[i + 1..j] + [b[j]] + b[j + 1..];
  }

  lemma OnceDistinct(s: State)
    requires Owned(s)
    ensures Distinct(s.batch) && Distinct(s.queue)
  {
    forall i, j | 0 <= i < j < |s.batch| ensures s.batch[i] != s.batch[j] {
      TwiceCounts(s.batch, i, j);
      assert Hands(s, s.batch[i]) <= 1;
    }
    forall i, j | 0 <= i < j < |s.queue| ensures s.queue[i] != s.queue[j] {
      TwiceCounts(s.queue, i, j);
      assert Hands(s, s.queue[i]) <= 1;
    }
  }

  /** With an accept in the gap ownership can fail: the closed descriptor comes back
  as a new connection, is queued, and is then armed by the old worker. */
  lemma AcceptInGapBreaksOwnership() returns (states: seq<State>, actions: seq<Action>)
    ensures Run(states, actions) && !Owned(states[|actions|])
  {
    states, actions := [State({}, {}, [], [], [Free])], [];
    states, actions := Extend(states, actions, Accept(7), State({7}, {7}, [], [], [Free]));
    states, actions := Extend(states, actions, Poll([7]), State({7}, {}, [7], [], [Free]));
    states, actions := Extend(states, actions, MainEnqueue, State({7}, {}, [], [7], [Free]));
    states, actions := Extend(states, actions, Pop(0), State({7}, {}, [], [], [Processing(7)]));
    states, actions := Extend(states, actions, WorkerClose(0), State({}, {}, [], [], [Closed(7)]));
    states, actions := Extend(states, actions, Accept(7), State({7}, {7}, [], [], [Closed(7)]));
    states, actions := Extend(states, actions, Poll([7]), State({7}, {}, [7], [], [Closed(7)]));
    states, actions := Extend(states, actions, MainEnqueue, State({7}, {}, [], [7], [Closed(7)]));
    states, actions := Extend(states, actions, WorkerModfd(0), State({7}, {7}, [], [7], [Free]));
    assert Hands(states[|actions|], 7) == 2;
  }

  lemma Extend(states: seq<State>, actions: seq<Action>, a: Action, next: State)
    returns (states': seq<State>, actions': seq<Action>)
    requires Run(states, actions) && Enabled(states[|actions|], a) && Next(states[|actions|], a) == next
    ensures Run(states', actions') && |actions'| == |actions| + 1 && states'[|actions'|] == next
  {
    states', actions' := states + [next], actions + [a];
    forall i | 0 <= i < |actions'|
      ensures Enabled(states'[i], actions'[i]) && states'[i + 1] == Next(states'[i], actions'[i])
    {
      if i < |actions| { assert Enabled(states[i], actions[i]); }
    }
  }

  /** Refusals happen, and what they leave behind: an open connection in nobody's hand. */
  lemma RefusalHappens() returns (states: seq<State>, actions: seq<Action>)
    ensures Run(states, actions) && 7 in states[|actions|].open && Hands(states[|actions|], 7) == 0
  {
    states, actions := [State({}, {}, [], [], [Free])], [];
    states, actions := Extend(states, actions, Accept(7), State({7}, {7}, [], [], [Free]));
    states, actions := Extend(states, actions, Poll([7]), State({7}, {}, [7], [], [Free]));
    states, actions := Extend(states, actions, MainDrop, State({7}, {}, [], [], [Free]));
  }

  lemma TokenStep(s: State, a: Action, c: nat)
    requires Inv(s) && Enabled(s, a)
    ensures TokenMoves(s, a, Next(s, a), c)
  {
    if a.WorkerModfd? {
      BusyUpdate(s.workers, a.w, Free);
      assert Hands(s, c) <= if c in s.open then 1 else 0;
    } else {
      HandsStep(s, a, c);
    }
  }

  /** Some request of `c` was refused in the first `n` steps. */
  ghost predicate Refused(states: seq<State>, actions: seq<Action>, n: nat, c: nat)
    requires n <= |actions| && |states| == |actions| + 1
  {
    exists i :: 0 <= i < n && Drops(states[i], actions[i], c)
  }

  /** In every run without an accept in the gap an open connection is in exactly one hand,
  unless a request of it was refused; then it stays open, in nobody's hand, for ever. */
  lemma {:induction false} ExactlyOneHand(states: seq<State>, actions: seq<Action>, n: nat, c: nat)
    requires Run(states, actions) && n <= |actions|
    requires forall i {:trigger NoAcceptInGap(states[i], actions[i])} :: 0 <= i < n ==> NoAcceptInGap(states[i], actions[i])
    ensures if Refused(states, actions, n, c) then c in states[n].open && Hands(states[n], c) == 0
            else Hands(states[n], c) == if c in states[n].open then 1 else 0
  {
    if n == 0 {
      IdleHands(states[0].workers);
    } else {
      ExactlyOneHand(states, actions, n - 1, c);
      RunKeepsInv(states, actions, n - 1);
      var s, a := states[n - 1], actions[n - 1];
      assert Enabled(states[n - 1], actions[n - 1]) && states[n - 1 + 1] == Next(s, a);
      TokenStep(s, a, c);
      if Drops(s, a, c) {
        BatchHands(s.batch);
        assert Drops(states[n - 1], actions[n - 1], c);
      }
      assert Refused(states, actions, n, c) <==> Refused(states, actions, n - 1, c) || Drops(s, a, c);
    }
  }

  /** A connection whose request the pool refused is never served or closed again. */
  lemma RefusedIsForgotten(states: seq<State>, actions: seq<Action>, m: nat, n: nat, c: nat)
    requires Run(states, actions) && m < n <= |actions|
    requires forall i {:trigger NoAcceptInGap(states[i], actions[i])} :: 0 <= i < n ==> NoAcceptInGap(states[i], actions[i])
    requires actions[m].MainDrop? && states[m].batch != [] && states[m].batch[0] == c
    ensures c in states[n].open && c !in states[n].armed && c !in states[n].batch && c !in states[n].queue
    ensures forall w :: 0 <= w < |states[n].workers| ==> states[n].workers[w] != Processing(c)
  {
    assert Drops(states[m], actions[m], c);
    ExactlyOneHand(states, actions, n, c);
    forall w | 0 <= w < |states[n].workers| ensures states[n].workers[w] != Processing(c) {
      if states[n].workers[w] == Processing(c) { BusyOne(states[n].workers, w); }
    }
  }

  // ---------- the way of a connection ----------

  /** A step after which `c` is armed: it was accepted, or modfd was called on it. */
  predicate Arms(s: State, a: Action, c: nat) {
    match a
    case Accept(d) => d == c
    case MainRearm => s.batch != [] && s.batch[0] == c
    case WorkerRearm(w) => w < |s.workers| && s.workers[w] == Processing(c)
    case _ => false
  }

  predicate Reports(a: Action, c: nat) {
    a.Poll? && c in a.events
  }

  predicate Enqueues(s: State, a: Action, c: nat) {
    a.MainEnqueue? && s.batch != [] && s.batch[0] == c
  }

  predicate Pops(s: State, a: Action, c: nat) {
    a.Pop? && s.queue != [] && s.queue[0] == c
  }

  /** Once armed, a connection stays open and armed, and with nobody, until epoll reports it. */
  lemma {:induction false} ArmedUntilReported(states: seq<State>, actions: seq<Action>, m: nat, n: nat, c: nat)
    requires Run(states, actions) && m < n <= |actions| && Arms(states[m], actions[m], c)
    requires forall i {:trigger NoAcceptInGap(states[i], actions[i])} :: 0 <= i < n ==> NoAcceptInGap(states[i], actions[i])
    requires forall i {:trigger Reports(actions[i], c)} :: m < i < n ==> !Reports(actions[i], c)
    ensures c in states[n].open && c in states[n].armed && Hands(states[n], c) == 1
    decreases n
  {
    var s, a := states[n - 1], actions[n - 1];
    assert Enabled(states[n - 1], actions[n - 1]) && states[n - 1 + 1] == Next(s, a);
    RunKeepsInv(states, actions, n - 1);
    TokenStep(s, a, c);
    if m == n - 1 {
      HeldIsOpen(s, a, c);
    } else {
      ArmedUntilReported(states, actions, m, n - 1, c);
      assert !Reports(actions[n - 1], c);
      StaysArmed(s, a, c);
    }
    RunKeepsInv(states, actions, n);
    assert Hands(states[n], c) <= if c in states[n].open then 1 else 0;
  }

  lemma HeldIsOpen(s: State, a: Action, c: nat)
    requires Inv(s) && Enabled(s, a) && Arms(s, a, c)
    ensures c in Next(s, a).open && c in Next(s, a).armed
  {
    assert Hands(s, c) <= if c in s.open then 1 else 0;
    match a
    case Accept(_) =>
    case MainRearm => BatchHands(s.batch);
    case WorkerRearm(w) => BusyOne(s.workers, w);
  }

  lemma StaysArmed(s: State, a: Action, c: nat)
    requires Inv(s) && Enabled(s, a) && c in s.open && c in s.armed && !Reports(a, c)
    ensures c in Next(s, a).open && c in Next(s, a).armed
  {
    assert Hands(s, c) <= 1;
    match a
    case MainClose => BatchHands(s.batch);
    case WorkerClose(w) => BusyOne(s.workers, w);
    case _ =>
  }

  /** A connection gets into the queue only by the main loop's append ... */
  lemma {:induction false} EntersQueue(states: seq<State>, actions: seq<Action>, m: nat, n: nat, c: nat) returns (i: nat)
    requires Run(states, actions) && m <= n <= |actions| && c !in states[m].queue && c in states[n].queue
    ensures m <= i < n && Enqueues(states[i], actions[i], c)
    decreases n
  {
    assert Enabled(states[n - 1], actions[n - 1]) && states[n - 1 + 1] == Next(states[n - 1], actions[n - 1]);
    if c in states[n - 1].queue { i := EntersQueue(states, actions, m, n - 1, c); } else { i := n - 1; }
  }

  /** ... and into the batch only by epoll's report. */
  lemma {:induction false} EntersBatch(states: seq<State>, actions: seq<Action>, m: nat, n: nat, c: nat) returns (i: nat)
    requires Run(states, actions) && m <= n <= |actions| && c !in states[m].batch && c in states[n].batch
    ensures m <= i < n && Reports(actions[i], c)
    decreases n
  {
    assert Enabled(states[n - 1], actions[n - 1]) && states[n - 1 + 1] == Next(states[n - 1], actions[n - 1]);
    if c in states[n - 1].batch { i := EntersBatch(states, actions, m, n - 1, c); } else { i := n - 1; }
  }

  /** Between two pops of one connection, epoll has reported it and the main loop has read
  from it and appended it, in this order. */
  lemma ReportedBetweenPops(states: seq<State>, actions: seq<Action>, m: nat, n: nat, c: nat) returns (i: nat, j: nat)
    requires Run(states, actions) && m < n < |actions| && Pops(states[m], actions[m], c) && Pops(states[n], actions[n], c)
    requires forall i {:trigger NoAcceptInGap(states[i], actions[i])} :: 0 <= i < n ==> NoAcceptInGap(states[i], actions[i])
    ensures m < i < j < n && Reports(actions[i], c) && Enqueues(states[j], actions[j], c)
  {
    assert Enabled(states[m], actions[m]) && states[m + 1] == Next(states[m], actions[m]);
    OwnershipIsExclusive(states, actions, m + 1);
    assert states[m + 1].workers[actions[m].w] == Processing(c);
    j := EntersQueue(states, actions, m + 1, n, c);
    i := EntersBatch(states, actions, m + 1, j, c);
  }

  // ---------- the order of things ----------

  /** The events that epoll has reported, and the appends of the main loop, so far. */
  ghost function Reported(actions: seq<Action>, n: nat): seq<nat>
    requires n <= |actions|
  {
    if n == 0 then []
    else Reported(actions, n - 1) + if actions[n - 1].Poll? then actions[n - 1].events else []
  }

  ghost function Handled(states: seq<State>, actions: seq<Action>, n: nat): seq<nat>
    requires n <= |actions| <= |states|
  {
    if n == 0 then []
    else
      var s, a := states[n - 1], actions[n - 1];
      Handled(states, actions, n - 1) +
      if (a.MainClose? || a.MainEnqueue? || a.MainDrop? || a.MainRearm?) && s.batch != [] then [s.batch[0]] else []
  }

  ghost function Appended(states: seq<State>, actions: seq<Action>, n: nat): seq<nat>
    requires n <= |actions| <= |states|
  {
    if n == 0 then []
    else
      var s, a := states[n - 1], actions[n - 1];
      Appended(states, actions, n - 1) + if a.MainEnqueue? && s.batch != [] then [s.batch[0]] else []
  }

  ghost function Popped(states: seq<State>, actions: seq<Action>, n: nat): seq<nat>
    requires n <= |actions| <= |states|
  {
    if n == 0 then []
    else
      var s, a := states[n - 1], actions[n - 1];
      Popped(states, actions, n - 1) + if a.Pop? && s.queue != [] then [s.queue[0]] else []
  }

  /** Events are handled in the order in which they were reported, and connections are
  processed in the order in which they were appended. */
  lemma {:induction false} InOrder(states: seq<State>, actions: seq<Action>, n: nat)
    requires Run(states, actions) && n <= |actions|
    ensures Reported(actions, n) == Handled(states, actions, n) + states[n].batch
    ensures Appended(states, actions, n) == Popped(states, actions, n) + states[n].queue
  {
    if n > 0 {
      InOrder(states, actions, n - 1);
      assert Enabled(states[n - 1], actions[n - 1]) && states[n - 1 + 1] == Next(states[n - 1], actions[n - 1]);
      BatchOrder(states[n - 1], actions[n - 1], Handled(states, actions, n - 1));
      QueueOrder(states[n - 1], actions[n - 1], Popped(states, actions, n - 1));
    }
  }

  lemma BatchOrder(s: State, a: Action, done: seq<nat>)
    requires Enabled(s, a)
    ensures var more := if (a.MainClose? || a.MainEnqueue? || a.MainDrop? || a.MainRearm?) && s.batch != [] then [s.batch[0]] else [];
            done + s.batch + (if a.Poll? then a.events else []) == done + more + Next(s, a).batch
  {
    if a.MainClose? || a.MainEnqueue? || a.MainDrop? || a.MainRearm? { assert s.batch == [s.batch[0]] + s.batch[1..]; }
  }

  lemma QueueOrder(s: State, a: Action, done: seq<nat>)
    requires Enabled(s, a)
    ensures var more := if a.Pop? && s.queue != [] then [s.queue[0]] else [];
            done + s.queue + (if a.MainEnqueue? && s.batch != [] then [s.batch[0]] else []) == done + more + Next(s, a).queue
  {
    if a.Pop? { assert s.queue == [s.queue[0]] + s.queue[1..]; }
  }
}
