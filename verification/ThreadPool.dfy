/** The thread pool as an interleaving system: any number of threads calling
`append`, any number of workers in `run`, sharing a mutex, a counting semaphore
and the request queue.  One action is one step of one thread. */
module ThreadPool {

  /** Where a caller of append is; `Pushed` to `Posting` have queued but not posted. */
  datatype Producer<R> =
    | Idle
    | Locking(req: R)
    | Checking(req: R)   // holds the mutex, about to test the queue size
    | Rejected           // holds the mutex, about to return false
    | Pushed             // holds the mutex, request queued
    | Posting            // mutex released, semaphore not yet posted

  /** Where a worker is; `token` tells whether its wait really took a unit. */
  datatype Worker =
    | Waiting
    | Woken(token: bool)
    | Holding(token: bool)    // holds the mutex, about to test for an empty queue
    | FoundEmpty              // holds the mutex, nothing to do
    | Took(ticket: nat)       // holds the mutex, request number `ticket` in hand
    | Working(ticket: nat)

  datatype Owner = Free | ByProducer(p: nat) | ByWorker(w: nat)

  /** `accepted`, `popped` and `takenBy` are the history: all requests ever queued,
  all ever taken out, and by which worker. */
  datatype State<R> = State(
    queue: seq<R>, sem: nat, owner: Owner,
    producers: seq<Producer<R>>, workers: seq<Worker>, max: nat,
    accepted: seq<R>, popped: seq<R>, takenBy: seq<nat>)

  datatype Action<R> =
    | Submit(p: nat, req: R) | LockP(p: nat) | Check(p: nat) | UnlockP(p: nat) | Post(p: nat)
    | Wait(w: nat) | FailedWait(w: nat) | LockW(w: nat) | Take(w: nat) | UnlockW(w: nat) | Finish(w: nat)

  predicate Enabled<R>(s: State<R>, a: Action<R>) {
    match a
    case Submit(p, _) => p < |s.producers| && s.producers[p].Idle?
    case LockP(p) => p < |s.producers| && s.producers[p].Locking? && s.owner.Free?
    case Check(p) => p < |s.producers| && s.producers[p].Checking?
    case UnlockP(p) => p < |s.producers| && (s.producers[p].Rejected? || s.producers[p].Pushed?)
    case Post(p) => p < |s.producers| && s.producers[p].Posting?
    case Wait(w) => w < |s.workers| && s.workers[w].Waiting? && s.sem > 0
    case FailedWait(w) => w < |s.workers| && s.workers[w].Waiting?
    case LockW(w) => w < |s.workers| && s.workers[w].Woken? && s.owner.Free?
    case Take(w) => w < |s.workers| && s.workers[w].Holding?
    case UnlockW(w) => w < |s.workers| && (s.workers[w].FoundEmpty? || s.workers[w].Took?)
    case Finish(w) => w < |s.workers| && s.workers[w].Working?
  }

  function Next<R>(s: State<R>, a: Action<R>): State<R>
    requires Enabled(s, a)
  {
    match a
    case Submit(p, req) => s.(producers := s.producers[p := Locking(req)])
    case LockP(p) => s.(owner := ByProducer(p), producers := s.producers[p := Checking(s.producers[p].req)])
    case Check(p) =>
      if |s.queue| > s.max then s.(producers := s.producers[p := Rejected])
      else
        var req := s.producers[p].req;
        s.(queue := s.queue + [req], accepted := s.accepted + [req], producers := s.producers[p := Pushed])
    case UnlockP(p) =>
      s.(owner := Free, producers := s.producers[p := if s.producers[p].Pushed? then Posting else Idle])
    case Post(p) => s.(sem := s.sem + 1, producers := s.producers[p := Idle])
    case Wait(w) => s.(sem := s.sem - 1, workers := s.workers[w := Woken(true)])
    case FailedWait(w) => s.(workers := s.workers[w := Woken(false)])
    case LockW(w) => s.(owner := ByWorker(w), workers := s.workers[w := Holding(s.workers[w].token)])
    case Take(w) =>
      if s.queue == [] then s.(workers := s.workers[w := FoundEmpty])
      else
        s.(queue := s.queue[1..], popped := s.popped + [s.queue[0]], takenBy := s.takenBy + [w],
           workers := s.workers[w := Took(|s.popped|)])
    case UnlockW(w) =>
      s.(owner := Free,
         workers := s.workers[w := if s.workers[w].Took? then Working(s.workers[w].ticket) else Waiting])
    case Finish(w) => s.(workers := s.workers[w := Waiting])
  }

  // ---------- counting threads in a window ----------

  predicate InPushWindow<R>(p: Producer<R>) { p.Pushed? || p.Posting? }
  predicate InTakeWindow(w: Worker) { (w.Woken? || w.Holding?) && w.token }
  predicate ProducerLocks<R>(p: Producer<R>) { p.Checking? || p.Rejected? || p.Pushed? }
  predicate WorkerLocks(w: Worker) { w.Holding? || w.FoundEmpty? || w.Took? }
  predicate HasTicket(w: Worker) { w.Took? || w.Working? }

  function CountPush<R>(ps: seq<Producer<R>>): nat {
    if ps == [] then 0 else (if InPushWindow(ps[0]) then 1 else 0) + CountPush(ps[1..])
  }

  function CountTake(ws: seq<Worker>): nat {
    if ws == [] then 0 else (if InTakeWindow(ws[0]) then 1 else 0) + CountTake(ws[1..])
  }

  lemma CountPushUpdate<R>(ps: seq<Producer<R>>, i: nat, x: Producer<R>)
    requires i < |ps|
    ensures CountPush(ps[i := x]) ==
            CountPush(ps) - (if InPushWindow(ps[i]) then 1 else 0) + (if InPushWindow(x) then 1 else 0)
  {
    if i > 0 {
      CountPushUpdate(ps[1..], i - 1, x);
      assert ps[i := x][1..] == ps[1..][i - 1 := x];
    }
  }

  lemma CountTakeUpdate(ws: seq<Worker>, i: nat, x: Worker)
    requires i < |ws|
    ensures CountTake(ws[i := x]) ==
            CountTake(ws) - (if InTakeWindow(ws[i]) then 1 else 0) + (if InTakeWindow(x) then 1 else 0)
  {
    if i > 0 {
      CountTakeUpdate(ws[1..], i - 1, x);
      assert ws[i := x][1..] == ws[1..][i - 1 := x];
    }
  }

  lemma CountTakeMember(ws: seq<Worker>, i: nat)
    requires i < |ws| && InTakeWindow(ws[i])
    ensures CountTake(ws) > 0
  {
    if i > 0 { CountTakeMember(ws[1..], i - 1); }
  }

  // ---------- invariants ----------

  /** The mutex is held by exactly the thread that is inside a critical section. */
  ghost predicate Exclusive<R>(s: State<R>) {
    && (forall p :: 0 <= p < |s.producers| ==> (ProducerLocks(s.producers[p]) <==> s.owner == ByProducer(p)))
    && (forall w :: 0 <= w < |s.workers| ==> (WorkerLocks(s.workers[w]) <==> s.owner == ByWorker(w)))
    && (s.owner.ByProducer? ==> s.owner.p < |s.producers|)
    && (s.owner.ByWorker? ==> s.owner.w < |s.workers|)
  }

  /** First in, first out; nothing lost, nothing doubled, and never too many. */
  ghost predicate Conserved<R>(s: State<R>) {
    && s.accepted == s.popped + s.queue
    && |s.queue| <= s.max + 1
    && |s.takenBy| == |s.popped|
    && (forall w :: 0 <= w < |s.workers| && HasTicket(s.workers[w]) ==>
          s.workers[w].ticket < |s.popped| && s.takenBy[s.workers[w].ticket] == w)
  }

  function Promised<R>(s: State<R>): nat {
    s.sem + CountPush(s.producers) + CountTake(s.workers)
  }

  ghost predicate Inv<R>(s: State<R>) {
    Exclusive(s) && Conserved(s) && |s.queue| <= Promised(s)
  }

  ghost predicate Init<R>(s: State<R>) {
    && s.queue == s.accepted == s.popped == [] && s.takenBy == [] && s.sem == 0 && s.owner == Free
    && (forall p :: 0 <= p < |s.producers| ==> s.producers[p].Idle?)
    && (forall w :: 0 <= w < |s.workers| ==> s.workers[w].Waiting?)
  }

  lemma StepExclusive<R>(s: State<R>, a: Action<R>)
    requires Exclusive(s) && Enabled(s, a)
    ensures Exclusive(Next(s, a))
  {
  }

  lemma StepConserved<R>(s: State<R>, a: Action<R>)
    requires Conserved(s) && Enabled(s, a)
    ensures Conserved(Next(s, a))
  {
  }

  /** How a step changes the queue against what has been promised. */
  lemma StepPromised<R>(s: State<R>, a: Action<R>)
    requires Enabled(s, a)
    ensures var s' := Next(s, a);
            var change := (|s'.queue| - Promised(s')) - (|s.queue| - Promised(s));
            if a.Take? && s.workers[a.w].token && s.queue == [] then change == 1
            else if a.Take? && !s.workers[a.w].token && s.queue != [] then change == -1
            else change == 0
  {
    var s' := Next(s, a);
    match a
    case Submit(p, _) => CountPushUpdate(s.producers, p, s'.producers[p]);
    case LockP(p) => CountPushUpdate(s.producers, p, s'.producers[p]);
    case Check(p) => CountPushUpdate(s.producers, p, s'.producers[p]);
    case UnlockP(p) => CountPushUpdate(s.producers, p, s'.producers[p]);
    case Post(p) => CountPushUpdate(s.producers, p, s'.producers[p]);
    case _ => CountTakeUpdate(s.workers, a.w, s'.workers[a.w]);
  }

  // ---------- whole runs ----------

  ghost predicate Run<R>(states: seq<State<R>>, actions: seq<Action<R>>) {
    && |states| == |actions| + 1 && Init(states[0])
    && forall i {:trigger Enabled(states[i], actions[i])} :: 0 <= i < |actions| ==>
         Enabled(states[i], actions[i]) && states[i + 1] == Next(states[i], actions[i])
  }

  lemma InitPromised<R>(ps: seq<Producer<R>>, ws: seq<Worker>)
    requires forall p :: 0 <= p < |ps| ==> ps[p].Idle?
    requires forall w :: 0 <= w < |ws| ==> ws[w].Waiting?
    ensures CountPush(ps) == 0 && CountTake(ws) == 0
  {
  }

  /** Every reachable state, failed waits included. */
  lemma {:induction false} RunKeepsInv<R>(states: seq<State<R>>, actions: seq<Action<R>>, n: nat)
    requires Run(states, actions) && n <= |actions|
    ensures Inv(states[n])
  {
    if n == 0 {
      InitPromised(states[0].producers, states[0].workers);
    } else {
      RunKeepsInv(states, actions, n - 1);
      var s, a := states[n - 1], actions[n - 1];
      assert Enabled(s, a) && states[n - 1 + 1] == Next(s, a);
      StepExclusive(s, a);
      StepConserved(s, a);
      StepPromised(s, a);
    }
  }

  /** While no wait has failed: the queue is exactly what the semaphore and the
  threads in the two windows account for, and every wake-up has its token. */
  ghost predicate Exact<R>(s: State<R>) {
    && |s.queue| == Promised(s)
    && forall w :: 0 <= w < |s.workers| && (s.workers[w].Woken? || s.workers[w].Holding?) ==> s.workers[w].token
  }

  lemma {:induction false} RunIsExact<R>(states: seq<State<R>>, actions: seq<Action<R>>, n: nat)
    requires Run(states, actions) && n <= |actions|
    requires forall i :: 0 <= i < n ==> !actions[i].FailedWait?
    ensures Exact(states[n])
  {
    if n == 0 {
      InitPromised(states[0].producers, states[0].workers);
    } else {
      RunIsExact(states, actions, n - 1);
      var s, a := states[n - 1], actions[n - 1];
      assert Enabled(s, a) && states[n - 1 + 1] == Next(s, a);
      if a.Take? { CountTakeMember(s.workers, a.w); }
      StepPromised(s, a);
    }
  }

  /** So no worker ever meets an empty queue unless a wait has failed before. */
  lemma EmptyBranchUnreachable<R>(states: seq<State<R>>, actions: seq<Action<R>>, n: nat, w: nat)
    requires Run(states, actions) && n <= |actions|
    requires forall i :: 0 <= i < n ==> !actions[i].FailedWait?
    requires w < |states[n].workers| && states[n].workers[w].Holding?
    ensures states[n].queue != []
  {
    RunIsExact(states, actions, n);
    CountTakeMember(states[n].workers, w);
  }

  /** A run in which a failed wait does lead a worker to an empty queue. */
  lemma FailedWaitMeetsEmptyQueue()
    ensures exists states: seq<State<int>>, actions ::
              Run(states, actions) && |actions| == 3 &&
              states[3].workers == [FoundEmpty]
  {
    var s0: State<int> := State([], 0, Free, [], [Waiting], 1, [], [], []);
    var a0: Action<int>, a1: Action<int>, a2: Action<int> := FailedWait(0), LockW(0), Take(0);
    var s1 := Next(s0, a0);
    var s2 := Next(s1, a1);
    var s3 := Next(s2, a2);
    assert Run([s0, s1, s2, s3], [a0, a1, a2]);
    assert [s0, s1, s2, s3][3].workers == [FoundEmpty];
  }

  lemma {:induction false} CountPushZero<R>(ps: seq<Producer<R>>)
    requires forall p :: 0 <= p < |ps| ==> !InPushWindow(ps[p])
    ensures CountPush(ps) == 0
  {
    if ps != [] { CountPushZero(ps[1..]); }
  }

  lemma {:induction false} CountTakeZero(ws: seq<Worker>)
    requires forall w :: 0 <= w < |ws| ==> !InTakeWindow(ws[w])
    ensures CountTake(ws) == 0
  {
    if ws != [] { CountTakeZero(ws[1..]); }
  }

  /** `actions` can be taken one after another from `s`. */
  ghost predicate CanDo<R>(s: State<R>, actions: seq<Action<R>>)
    decreases |actions|
  {
    actions == [] || (Enabled(s, actions[0]) && CanDo(Next(s, actions[0]), actions[1..]))
  }

  ghost function Doing<R>(s: State<R>, actions: seq<Action<R>>): State<R>
    requires CanDo(s, actions)
    decreases |actions|
  {
    if actions == [] then s else Doing(Next(s, actions[0]), actions[1..])
  }

  /** No new request, and every wait succeeds. */
  predicate Ordinary<R>(actions: seq<Action<R>>) {
    forall i :: 0 <= i < |actions| ==> !actions[i].Submit? && !actions[i].FailedWait?
  }

  /** `actions` lead from `s` to the head of the queue being handed to a worker. */
  ghost predicate ServesHead<R>(s: State<R>, actions: seq<Action<R>>) {
    && s.queue != [] && Ordinary(actions) && CanDo(s, actions)
    && Doing(s, actions).popped == s.popped + [s.queue[0]]
  }

  /** A step that leaves the head where it is can be put in front. */
  lemma FirstDo<R>(s: State<R>, a: Action<R>, rest: seq<Action<R>>) returns (actions: seq<Action<R>>)
    requires Enabled(s, a) && !a.Submit? && !a.FailedWait?
    requires s.queue != [] && s.queue <= Next(s, a).queue && Next(s, a).popped == s.popped
    requires ServesHead(Next(s, a), rest)
    ensures ServesHead(s, actions)
  {
    actions := [a] + rest;
    assert actions[1..] == rest;
  }

  lemma TakesHead<R>(s: State<R>, w: nat) returns (actions: seq<Action<R>>)
    requires s.queue != [] && w < |s.workers| && s.workers[w].Holding?
    ensures ServesHead(s, actions)
  {
    actions := [Take(w)];
    assert CanDo(Next(s, Take(w)), actions[1..]);
    assert Doing(s, actions) == Doing(Next(s, Take(w)), actions[1..]);
  }

  lemma WokenServes<R>(s: State<R>, w: nat) returns (actions: seq<Action<R>>)
    requires s.queue != [] && s.owner.Free? && w < |s.workers| && s.workers[w].Woken?
    ensures ServesHead(s, actions)
  {
    actions := TakesHead(Next(s, LockW(w)), w);
    actions := FirstDo(s, LockW(w), actions);
  }

  /** With the lock free and a unit in the semaphore, worker 0 can do it. */
  lemma UnitServes<R>(s: State<R>) returns (actions: seq<Action<R>>)
    requires Exclusive(s) && s.queue != [] && s.owner.Free? && s.workers != [] && s.sem > 0
    ensures ServesHead(s, actions)
  {
    var s' := if s.workers[0].Working? then Next(s, Finish(0)) else s;
    if s'.workers[0].Woken? {
      actions := WokenServes(s', 0);
    } else {
      actions := WokenServes(Next(s', Wait(0)), 0);
      actions := FirstDo(s', Wait(0), actions);
    }
    if s.workers[0].Working? { actions := FirstDo(s, Finish(0), actions); }
  }

  lemma FreeServes<R>(s: State<R>) returns (actions: seq<Action<R>>)
    requires Inv(s) && s.queue != [] && s.owner.Free? && s.workers != []
    ensures ServesHead(s, actions)
  {
    if s.sem > 0 {
      actions := UnitServes(s);
    } else if p :| 0 <= p < |s.producers| && InPushWindow(s.producers[p]) {
      StepExclusive(s, Post(p));
      actions := UnitServes(Next(s, Post(p)));
      actions := FirstDo(s, Post(p), actions);
    } else if w :| 0 <= w < |s.workers| && InTakeWindow(s.workers[w]) {
      actions := WokenServes(s, w);
    } else {
      CountPushZero(s.producers);
      CountTakeZero(s.workers);
      assert false;
    }
  }

  lemma StepInv<R>(s: State<R>, a: Action<R>)
    requires Inv(s) && Enabled(s, a)
    ensures Inv(Next(s, a))
  {
    StepExclusive(s, a);
    StepConserved(s, a);
    StepPromised(s, a);
  }

  /** Whoever holds the lock can let go of it, or takes the head. */
  lemma InvServes<R>(s: State<R>) returns (actions: seq<Action<R>>)
    requires Inv(s) && s.queue != [] && s.workers != []
    ensures ServesHead(s, actions)
    decreases if s.owner.Free? then 0 else if s.owner.ByProducer? && s.producers[s.owner.p].Checking? then 2 else 1
  {
    match s.owner {
      case Free => actions := FreeServes(s);
      case ByProducer(p) =>
        var a: Action<R> := if s.producers[p].Checking? then Check(p) else UnlockP(p);
        StepInv(s, a);
        actions := InvServes(Next(s, a));
        actions := FirstDo(s, a, actions);
      case ByWorker(w) =>
        if s.workers[w].Holding? {
          actions := TakesHead(s, w);
        } else {
          StepInv(s, UnlockW(w));
          actions := InvServes(Next(s, UnlockW(w)));
          actions := FirstDo(s, UnlockW(w), actions);
        }
    }
  }

  /** No queued request is ever stranded: from every reachable state, failed waits or
  not, the threads that are there can hand the head of the queue to a worker, without
  any new request to wake them. */
  lemma QueuedWorkIsNeverStranded<R>(states: seq<State<R>>, actions: seq<Action<R>>, n: nat)
    returns (more: seq<Action<R>>)
    requires Run(states, actions) && n <= |actions|
    requires states[n].queue != [] && states[n].workers != []
    ensures Ordinary(more) && CanDo(states[n], more)
    ensures Doing(states[n], more).popped == states[n].popped + [states[n].queue[0]]
  {
    RunKeepsInv(states, actions, n);
    more := InvServes(states[n]);
  }

  /** When every caller is idle and every worker asleep in wait, all accepted
  requests have been handed out, in the order in which they were accepted. */
  lemma AsleepMeansDrained<R>(states: seq<State<R>>, actions: seq<Action<R>>, n: nat)
    requires Run(states, actions) && n <= |actions| && states[n].sem == 0
    requires forall p :: 0 <= p < |states[n].producers| ==> states[n].producers[p].Idle?
    requires forall w :: 0 <= w < |states[n].workers| ==> states[n].workers[w].Waiting?
    ensures states[n].queue == [] && states[n].popped == states[n].accepted
  {
    RunKeepsInv(states, actions, n);
    InitPromised(states[n].producers, states[n].workers);
  }

  /** History only grows, so a request once handed to a worker stays with it. */
  lemma {:induction false} HistoryGrows<R>(states: seq<State<R>>, actions: seq<Action<R>>, m: nat, n: nat)
    requires Run(states, actions) && m <= n <= |actions|
    ensures states[m].accepted <= states[n].accepted
    ensures states[m].popped <= states[n].popped && states[m].takenBy <= states[n].takenBy
  {
    if m < n {
      HistoryGrows(states, actions, m, n - 1);
      assert Enabled(states[n - 1], actions[n - 1]) && states[n - 1 + 1] == Next(states[n - 1], actions[n - 1]);
    }
  }

  /** No request is ever in the hands of two workers, not even at different times. */
  lemma OneWorkerPerRequest<R>(
    states: seq<State<R>>, actions: seq<Action<R>>, m: nat, n: nat, v: nat, w: nat)
    requires Run(states, actions) && m <= n <= |actions|
    requires v < |states[m].workers| && HasTicket(states[m].workers[v])
    requires w < |states[n].workers| && HasTicket(states[n].workers[w])
    ensures states[m].workers[v].ticket == states[n].workers[w].ticket ==> v == w
  {
    RunKeepsInv(states, actions, m);
    RunKeepsInv(states, actions, n);
    HistoryGrows(states, actions, m, n);
  }

  // ---------- which requests are accepted ----------

  /** What producer `p` last asked for. */
  ghost function LastRequest<R>(actions: seq<Action<R>>, n: nat, p: nat): (r: seq<R>)
    requires n <= |actions|
    ensures |r| <= 1
  {
    if n == 0 then []
    else match actions[n - 1]
      case Submit(q, req) => if q == p then [req] else LastRequest(actions, n - 1, p)
      case _ => LastRequest(actions, n - 1, p)
  }

  /** The requests that met a queue of at most `max`, in the order in which they did. */
  ghost function Admitted<R>(states: seq<State<R>>, actions: seq<Action<R>>, n: nat): seq<R>
    requires n <= |actions| <= |states|
  {
    if n == 0 then []
    else
      var before := Admitted(states, actions, n - 1);
      match actions[n - 1]
      case Check(p) =>
        if |states[n - 1].queue| <= states[n - 1].max then before + LastRequest(actions, n - 1, p) else before
      case _ => before
  }

  /** A producer on its way to the test carries what it was asked for. */
  ghost predicate Carries<R>(s: State<R>, actions: seq<Action<R>>, n: nat)
    requires n <= |actions|
  {
    forall p :: 0 <= p < |s.producers| && (s.producers[p].Locking? || s.producers[p].Checking?) ==>
      LastRequest(actions, n, p) == [s.producers[p].req]
  }

  /** The accepted requests are exactly the submitted ones that met a queue of at most
  `max`, in the order of those tests. */
  lemma {:induction false} AcceptedIsAdmitted<R>(states: seq<State<R>>, actions: seq<Action<R>>, n: nat)
    requires Run(states, actions) && n <= |actions|
    ensures Carries(states[n], actions, n) && states[n].accepted == Admitted(states, actions, n)
  {
    if n > 0 {
      AcceptedIsAdmitted(states, actions, n - 1);
      var s, a := states[n - 1], actions[n - 1];
      assert Enabled(states[n - 1], actions[n - 1]) && states[n - 1 + 1] == Next(s, a);
      if a.Check? { assert LastRequest(actions, n - 1, a.p) == [s.producers[a.p].req]; }
    }
  }

  /** Step `i` is the last test that producer `p` made before step `n`. */
  predicate LastTest<R>(actions: seq<Action<R>>, i: nat, n: nat, p: nat) {
    i < n <= |actions| && actions[i] == Check(p) && forall j :: i < j < n ==> actions[j] != Check(p)
  }

  /** What became of a call of append, by the queue that its test met: refused if it was
  longer than `max`, else its own request went to the end of the accepted ones. */
  ghost predicate DecidedBy<R>(states: seq<State<R>>, actions: seq<Action<R>>, i: nat, p: nat, refused: bool)
    requires i < |actions| < |states|
  {
    LastRequest(actions, i, p) != [] &&
    if refused then
      |states[i].queue| > states[i].max && states[i + 1].accepted == states[i].accepted
    else
      && |states[i].queue| <= states[i].max
      && states[i + 1].accepted == states[i].accepted + LastRequest(actions, i, p)
      && states[i + 1].queue == states[i].queue + LastRequest(actions, i, p)
  }

  /** A caller that is about to return false met a queue longer than `max`, and one that is
  about to return true did not. */
  lemma {:induction false} AppendDecides<R>(states: seq<State<R>>, actions: seq<Action<R>>, n: nat, p: nat) returns (i: nat)
    requires Run(states, actions) && n <= |actions| && p < |states[n].producers|
    requires var pc := states[n].producers[p]; pc.Rejected? || pc.Pushed? || pc.Posting?
    ensures LastTest(actions, i, n, p) && DecidedBy(states, actions, i, p, states[n].producers[p].Rejected?)
  {
    var s, a := states[n - 1], actions[n - 1];
    assert Enabled(states[n - 1], actions[n - 1]) && states[n - 1 + 1] == Next(s, a);
    AcceptedIsAdmitted(states, actions, n - 1);
    if a == Check(p) { i := n - 1; } else { i := AppendDecides(states, actions, n - 1, p); }
  }

  lemma Extend<R>(states: seq<State<R>>, actions: seq<Action<R>>, a: Action<R>)
    returns (states': seq<State<R>>, actions': seq<Action<R>>)
    requires Run(states, actions) && Enabled(states[|actions|], a)
    ensures Run(states', actions') && |actions'| == |actions| + 1
    ensures states'[|actions'|] == Next(states[|actions|], a)
  {
    states', actions' := states + [Next(states[|actions|], a)], actions + [a];
    forall i | 0 <= i < |actions'|
      ensures Enabled(states'[i], actions'[i]) && states'[i + 1] == Next(states'[i], actions'[i])
    {
      if i < |actions| { assert Enabled(states[i], actions[i]); }
    }
  }

  /** One caller, no worker, `k` requests queued. */
  ghost predicate Filled<R>(s: State<R>, max: nat, k: nat) {
    s.producers == [Idle] && s.owner == Free && s.max == max && |s.queue| == k
  }

  /** The queue can become as long as max + 1: that many calls in a row all succeed. */
  lemma {:induction false} QueueFills(max: nat, k: nat) returns (states: seq<State<int>>, actions: seq<Action<int>>)
    requires k <= max + 1
    ensures Run(states, actions) && Filled(states[|actions|], max, k)
  {
    if k == 0 {
      states, actions := [State([], 0, Free, [Idle], [], max, [], [], [])], [];
    } else {
      states, actions := QueueFills(max, k - 1);
      states, actions := Extend(states, actions, Submit(0, 7));
      states, actions := Extend(states, actions, LockP(0));
      states, actions := Extend(states, actions, Check(0));
      states, actions := Extend(states, actions, UnlockP(0));
      states, actions := Extend(states, actions, Post(0));
    }
  }

  /** And no longer: the next call is refused. */
  lemma FullQueueRefuses(max: nat) returns (states: seq<State<int>>, actions: seq<Action<int>>)
    ensures Run(states, actions) && |states[|actions|].queue| == max + 1 && states[|actions|].producers == [Rejected]
  {
    states, actions := QueueFills(max, max + 1);
    states, actions := Extend(states, actions, Submit(0, 7));
    states, actions := Extend(states, actions, LockP(0));
    states, actions := Extend(states, actions, Check(0));
  }
}
