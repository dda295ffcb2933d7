/** The idle-connection server: its event loop drives the sorted timer list, one
timer per open connection.  Kernel outcomes (which descriptor is ready, what
accept and recv return, the time) are the steps of a run. */
module IdleServer {
  import opened Chains
  import opened TimerOrder
  import opened SortedTimerList

  const FD_LIMIT := 65535
  const TIMESLOT := 5
  const LIFETIME := 3 * TIMESLOT

  /** One iteration of the event loop's inner for, or the end of an epoll batch. */
  datatype Step =
    | Accept(fd: nat, now: int)
    | Data(fd: nat, now: int)
    | NoData(fd: nat)             // recv failed with EAGAIN
    | HangUp(fd: nat)             // end of stream or a read error
    | SigAlrm
    | SigTerm
    | BatchEnd(now: int)

  datatype Conn = Conn(fd: nat, last: int)

  // ---------- what the loop does, seen as a list of connections by recency ----------

  /** Open connections in order of last activity, and the loop's two flags. */
  datatype State = State(conns: seq<Conn>, timeout: bool, stop: bool)

  function Find(cs: seq<Conn>, fd: nat): (i: nat)
    ensures i <= |cs|
    ensures i < |cs| ==> cs[i].fd == fd
    ensures forall j :: 0 <= j < i ==> cs[j].fd != fd
  {
    if cs == [] || cs[0].fd == fd then 0 else 1 + Find(cs[1..], fd)
  }

  predicate IsOpen(cs: seq<Conn>, fd: nat) {
    Find(cs, fd) < |cs|
  }

  /** How many of the connections at the front have been idle for a lifetime. */
  function IdleCount(cs: seq<Conn>, now: int): (n: nat)
    ensures n <= |cs|
    ensures forall i :: 0 <= i < n ==> cs[i].last + LIFETIME <= now
    ensures n < |cs| ==> now < cs[n].last + LIFETIME
  {
    if cs == [] || now < cs[0].last + LIFETIME then 0 else 1 + IdleCount(cs[1..], now)
  }

  function Fds(cs: seq<Conn>): seq<nat> {
    seq(|cs|, i requires 0 <= i < |cs| => cs[i].fd)
  }

  /** What the kernel may report: accept returns a closed descriptor within the
  table, and only open descriptors become ready. */
  predicate Possible(s: State, step: Step) {
    match step
    case Accept(fd, _) => fd < FD_LIMIT && !IsOpen(s.conns, fd)
    case Data(fd, _) => IsOpen(s.conns, fd)
    case NoData(fd) => IsOpen(s.conns, fd)
    case HangUp(fd) => IsOpen(s.conns, fd)
    case _ => true
  }

  function Next(s: State, step: Step): State
    requires Possible(s, step)
  {
    match step
    case Accept(fd, now) => s.(conns := s.conns + [Conn(fd, now)])
    case Data(fd, now) => s.(conns := RemoveAt(s.conns, Find(s.conns, fd)) + [Conn(fd, now)])
    case NoData(_) => s
    case HangUp(fd) => s.(conns := RemoveAt(s.conns, Find(s.conns, fd)))
    case SigAlrm => s.(timeout := true)
    case SigTerm => s.(stop := true)
    case BatchEnd(now) =>
      if s.timeout then s.(conns := s.conns[IdleCount(s.conns, now)..], timeout := false) else s
  }

  /** The descriptors that a step closes, in order. */
  function Closes(s: State, step: Step): seq<nat> {
    match step
    case HangUp(fd) => [fd]
    case BatchEnd(now) => if s.timeout then Fds(s.conns[..IdleCount(s.conns, now)]) else []
    case _ => []
  }

  function TimeOf(step: Step, clock: int): int {
    match step
    case Accept(_, now) => now
    case Data(_, now) => now
    case BatchEnd(now) => now
    case _ => clock
  }

  // ---------- whole histories ----------

  /** The time of the last step that has one. */
  function Clock(h: seq<Step>, start: int): int {
    if h == [] then start else TimeOf(h[|h| - 1], Clock(h[..|h| - 1], start))
  }

  /** The kernel reports only possible steps and its clock never goes back. */
  ghost predicate History(h: seq<Step>, start: int) {
    h == [] || (
      var p, step := h[..|h| - 1], h[|h| - 1];
      History(p, start) && Possible(After(p, start), step) && Clock(p, start) <= TimeOf(step, Clock(p, start)))
  }

  ghost function After(h: seq<Step>, start: int): State {
    if h == [] then State([], false, false)
    else
      var p, step := h[..|h| - 1], h[|h| - 1];
      if Possible(After(p, start), step) then Next(After(p, start), step) else After(p, start)
  }

  ghost function AllClosed(h: seq<Step>, start: int): seq<nat> {
    if h == [] then []
    else AllClosed(h[..|h| - 1], start) + Closes(After(h[..|h| - 1], start), h[|h| - 1])
  }

  /** SIGTERM is among the first `n` steps. */
  ghost predicate Terminated(h: seq<Step>, n: nat) {
    exists i :: 0 <= i < n && i < |h| && h[i].SigTerm?
  }

  /** The first `n` steps end with a batch that has SIGTERM in it or before it. */
  ghost predicate StopsAt(h: seq<Step>, n: nat) {
    0 < n <= |h| && h[n - 1].BatchEnd? && Terminated(h, n)
  }

  lemma Unfold(h: seq<Step>, n: nat, start: int)
    requires n < |h| && History(h[..n + 1], start)
    ensures Possible(After(h[..n], start), h[n])
    ensures After(h[..n + 1], start) == Next(After(h[..n], start), h[n])
    ensures AllClosed(h[..n + 1], start) == AllClosed(h[..n], start) + Closes(After(h[..n], start), h[n])
    ensures Clock(h[..n], start) <= Clock(h[..n + 1], start) == TimeOf(h[n], Clock(h[..n], start))
  {
    assert h[..n + 1][..n] == h[..n];
  }

  // ---------- the loop itself ----------

  /** Connections and timers are in bijection and in the same order: the i-th
  least recently active connection owns the i-th timer. */
  ghost predicate Paired(cs: seq<Conn>, users: array<Node?<Payload>>, ns: seq<UtilTimer>)
    reads users, ns`item
  {
    && |cs| == |ns| && users.Length == FD_LIMIT
    && (forall i :: 0 <= i < |cs| ==> cs[i].fd < FD_LIMIT && users[cs[i].fd] == ns[i])
    && (forall i :: 0 <= i < |cs| ==> ns[i].item == Payload(cs[i].last + LIFETIME, cs[i].fd))
  }

  /** Every connection but the i-th is paired, and the i-th timer has been set anew. */
  lemma PairedMoved(cs: seq<Conn>, users: array<Node?<Payload>>, ns: seq<UtilTimer>, i: nat, now: int)
    requires |cs| == |ns| && users.Length == FD_LIMIT && i < |cs|
    requires forall j :: 0 <= j < |cs| ==> cs[j].fd < FD_LIMIT && users[cs[j].fd] == ns[j]
    requires forall j :: 0 <= j < |cs| && j != i ==> ns[j].item == Payload(cs[j].last + LIFETIME, cs[j].fd)
    requires ns[i].item == Payload(now + LIFETIME, cs[i].fd)
    ensures Paired(RemoveAt(cs, i) + [Conn(cs[i].fd, now)], users, RemoveAt(ns, i) + [ns[i]])
  {
    var cs', ns' := RemoveAt(cs, i) + [Conn(cs[i].fd, now)], RemoveAt(ns, i) + [ns[i]];
    forall j | 0 <= j < |cs'|
      ensures cs'[j].fd < FD_LIMIT && users[cs'[j].fd] == ns'[j]
      ensures ns'[j].item == Payload(cs'[j].last + LIFETIME, cs'[j].fd)
    {
      var k := if j < i then j else j + 1;
      assert j < |cs| - 1 ==> cs'[j] == cs[k] && ns'[j] == ns[k];
    }
  }

  lemma PairedRemoved(cs: seq<Conn>, users: array<Node?<Payload>>, ns: seq<UtilTimer>, i: nat)
    requires Paired(cs, users, ns) && i < |cs|
    ensures Paired(RemoveAt(cs, i), users, RemoveAt(ns, i))
  {
    var cs', ns' := RemoveAt(cs, i), RemoveAt(ns, i);
    forall j | 0 <= j < |cs'|
      ensures cs'[j].fd < FD_LIMIT && users[cs'[j].fd] == ns'[j]
      ensures ns'[j].item == Payload(cs'[j].last + LIFETIME, cs'[j].fd)
    {
      var k := if j < i then j else j + 1;
      assert cs'[j] == cs[k] && ns'[j] == ns[k];
    }
  }

  ghost predicate NoneAfter(cs: seq<Conn>, clock: int) {
    forall i :: 0 <= i < |cs| ==> cs[i].last <= clock
  }

  /** Adds a timer that expires last. */
  method AddLast(timers: SortTimerList, timer: UtilTimer)
    requires timers.Valid() && timer !in timers.nodes && timer !in timers.freed
    requires timer.prev == null && timer.next == null
    requires forall i :: 0 <= i < |timers.nodes| ==> timers.nodes[i].item.expire <= timer.item.expire
    modifies timers, timers.nodes`prev, timers.nodes`next, timer`prev, timer`next
    ensures timers.Valid() && timers.nodes == old(timers.nodes) + [timer] && timers.freed == old(timers.freed)
  {
    PositionIs(timers.model, timer.item.expire, |timers.model|);
    timers.AddTimer(timer);
  }

  ghost predicate Within(ns: seq<UtilTimer>, was: seq<UtilTimer>) {
    forall n :: n in ns ==> n in was
  }

  lemma WithinRest(ns: seq<UtilTimer>, i: nat)
    ensures i < |ns| ==> Within(RemoveAt(ns, i), ns) && Within(RemoveAt(ns, i) + [ns[i]], ns)
    ensures i <= |ns| ==> Within(ns[i..], ns)
  {
  }

  method OnAccept(timers: SortTimerList, users: array<Node?<Payload>>, fd: nat, now: int, ghost cs: seq<Conn>)
    requires timers.Valid() && Paired(cs, users, timers.nodes) && NoneAfter(cs, now)
    requires fd < FD_LIMIT && !IsOpen(cs, fd)
    modifies users, timers, timers.nodes`prev, timers.nodes`next
    ensures timers.Valid() && Paired(cs + [Conn(fd, now)], users, timers.nodes)
    ensures exists n :: fresh(n) && timers.nodes == old(timers.nodes) + [n]
  {
    var timer := new Node(Payload(now + LIFETIME, fd));
    users[fd] := timer;
    AddLast(timers, timer);
  }

  /** Moves a timer, whose expiry was just set to the latest of all, to the end. */
  method Touch(timers: SortTimerList, timer: UtilTimer, ghost i: nat)
    requires timers.Shape() && timers.Ordered() && CurrentExcept(timers.model, timers.nodes, i)
    requires i < |timers.nodes| && timers.nodes[i] == timer
    requires forall j :: 0 <= j < |timers.nodes| ==> timers.nodes[j].item.expire <= timer.item.expire
    modifies timers, timers.nodes`prev, timers.nodes`next
    ensures timers.Valid() && timers.nodes == RemoveAt(old(timers.nodes), i) + [timer]
    ensures timers.freed == old(timers.freed)
  {
    ghost var es, ns := timers.model, timers.nodes;
    AdjustToEnd(es, i, timer.item.expire, timers.touches);
    timers.AdjustTimer(timer, i);
    SameNodes(es, ns, i, timers.model, timers.nodes);
  }

  lemma AdjustToEnd(es: seq<Entry<UtilTimer>>, i: nat, t: int, stamp: nat)
    requires Sorted(es) && i < |es| && forall j :: 0 <= j < |es| && j != i ==> es[j].expire <= t
    ensures Adjust(es, i, t, stamp) == RemoveAt(es, i) + [Entry(es[i].key, t, stamp)]
  {
    AdjustIsReinsert(es, i, t, stamp);
    PositionIs(RemoveAt(es, i), t, |es| - 1);
  }

  lemma SameNodes(es: seq<Entry<UtilTimer>>, ns: seq<UtilTimer>, i: nat, es': seq<Entry<UtilTimer>>, ns': seq<UtilTimer>)
    requires Lists(es, ns, {}) && Lists(es', ns', {}) && i < |es| && |es'| == |es|
    requires forall k :: 0 <= k < |es| - 1 ==> es'[k] == RemoveAt(es, i)[k]
    requires es'[|es| - 1].key == es[i].key
    ensures ns' == RemoveAt(ns, i) + [ns[i]]
  {
  }

  method OnData(timers: SortTimerList, users: array<Node?<Payload>>, fd: nat, now: int, ghost cs: seq<Conn>)
    requires timers.Valid() && Paired(cs, users, timers.nodes) && NoneAfter(cs, now)
    requires IsOpen(cs, fd)
    modifies timers, timers.nodes
    ensures timers.Valid() && Paired(RemoveAt(cs, Find(cs, fd)) + [Conn(fd, now)], users, timers.nodes)
    ensures Within(timers.nodes, old(timers.nodes))
  {
    ghost var i := Find(cs, fd);
    var timer := users[fd];
    timer.item := timer.item.(expire := now + LIFETIME);
    PairedMoved(cs, users, timers.nodes, i, now);
    WithinRest(timers.nodes, i);
    Touch(timers, timer, i);
  }

  method Unregister(timers: SortTimerList, timer: Node?<Payload>, ghost i: nat, ghost rest: seq<UtilTimer>)
    requires timers.Valid() && i < |timers.nodes| && timer == timers.nodes[i] && rest == RemoveAt(timers.nodes, i)
    modifies timers, timers.nodes`prev, timers.nodes`next
    ensures timers.Valid() && timers.nodes == rest && timer in timers.freed
  {
    timers.DelTimer(timer, i);
  }

  method OnHangUp(timers: SortTimerList, users: array<Node?<Payload>>, fd: nat, ghost cs: seq<Conn>)
    requires timers.Valid() && Paired(cs, users, timers.nodes)
    requires IsOpen(cs, fd)
    modifies timers, timers.nodes`prev, timers.nodes`next
    ensures timers.Valid() && Paired(RemoveAt(cs, Find(cs, fd)), users, timers.nodes)
    ensures Within(timers.nodes, old(timers.nodes))
  {
    ghost var i := Find(cs, fd);
    ghost var left, rest := RemoveAt(cs, i), RemoveAt(timers.nodes, i);
    PairedRemoved(cs, users, timers.nodes, i);
    WithinRest(timers.nodes, i);
    assert users[fd] == timers.nodes[i];
    Unregister(timers, users[fd], i, rest);
    assert Paired(left, users, rest);
  }

  lemma PairedRest(cs: seq<Conn>, users: array<Node?<Payload>>, ns: seq<UtilTimer>, n: nat)
    requires Paired(cs, users, ns) && n <= |cs|
    ensures Paired(cs[n..], users, ns[n..]) && Users(ns[..n]) == Fds(cs[..n])
  {
  }

  /** The descriptors that the callbacks of these timers close. */
  function Users(ns: seq<UtilTimer>): seq<nat>
    reads ns
  {
    seq(|ns|, i requires 0 <= i < |ns| reads ns => ns[i].item.user)
  }

  /** A tick of the list, with the callbacks of the first `n` timers. */
  method FireDue(timers: SortTimerList, now: int, ghost n: nat) returns (closed: seq<nat>)
    requires timers.Valid() && n == Position(timers.model, now)
    modifies timers, timers.nodes`prev
    ensures timers.Valid() && n <= |old(timers.nodes)| && timers.nodes == old(timers.nodes)[n..]
    ensures closed == old(Users(timers.nodes[..n]))
  {
    var fired := timers.Tick(now);
    closed := Users(fired);
  }

  /** The timer handler: the callbacks of the fired timers close their connections. */
  method OnAlarm(timers: SortTimerList, users: array<Node?<Payload>>, now: int, ghost cs: seq<Conn>)
    returns (closed: seq<nat>)
    requires timers.Valid() && Paired(cs, users, timers.nodes)
    modifies timers, timers.nodes`prev
    ensures timers.Valid() && Paired(cs[IdleCount(cs, now)..], users, timers.nodes)
    ensures closed == Fds(cs[..IdleCount(cs, now)])
    ensures Within(timers.nodes, old(timers.nodes))
  {
    ghost var n := IdleCount(cs, now);
    PositionIs(timers.model, now, n);
    WithinRest(timers.nodes, n);
    PairedRest(cs, users, timers.nodes, n);
    closed := FireDue(timers, now, n);
    assert Paired(cs[n..], users, old(timers.nodes[n..]));
  }

  lemma NextNoneAfter(s: State, step: Step, clock: int)
    requires Possible(s, step) && NoneAfter(s.conns, clock) && clock <= TimeOf(step, clock)
    ensures NoneAfter(Next(s, step).conns, TimeOf(step, clock))
  {
  }

  /** One step of the loop body. */
  method Handle(timers: SortTimerList, users: array<Node?<Payload>>, step: Step, timeout: bool, stop: bool,
                ghost cs: seq<Conn>, ghost clock: int, ghost owned: set<UtilTimer>)
    returns (closed: seq<nat>, timeout': bool, stop': bool, ghost owned': set<UtilTimer>)
    requires forall n :: n in timers.nodes ==> n in owned
    requires timers.Valid() && Paired(cs, users, timers.nodes) && NoneAfter(cs, clock)
    requires Possible(State(cs, timeout, stop), step) && clock <= TimeOf(step, clock)
    modifies users, timers, owned
    ensures timers.Valid()
    ensures var s := Next(State(cs, timeout, stop), step);
            Paired(s.conns, users, timers.nodes) && timeout' == s.timeout && stop' == s.stop
    ensures closed == Closes(State(cs, timeout, stop), step)
    ensures owned <= owned' && fresh(owned' - owned) && forall n :: n in timers.nodes ==> n in owned'
  {
    closed, timeout', stop', owned' := [], timeout, stop, owned;
    match step
    case Accept(fd, now) =>
      OnAccept(timers, users, fd, now, cs);
      owned' := owned + {timers.nodes[|timers.nodes| - 1]};
    case Data(fd, now) => OnData(timers, users, fd, now, cs);
    case NoData(_) =>
    case HangUp(fd) =>
      OnHangUp(timers, users, fd, cs);
      closed := [fd];
    case SigAlrm => timeout' := true;
    case SigTerm => stop' := true;
    case BatchEnd(now) =>
      if timeout {
        closed := OnAlarm(timers, users, now, cs);
        timeout' := false;
      }
  }

  lemma {:induction false} HistoryPrefix(h: seq<Step>, n: nat, start: int)
    requires History(h, start) && n <= |h|
    ensures History(h[..n], start)
    decreases |h|
  {
    if n == |h| {
      assert h[..n] == h;
    } else {
      HistoryPrefix(h[..|h| - 1], n, start);
      assert h[..|h| - 1][..n] == h[..n];
    }
  }

  /** After `n` steps the loop's variables are `s`, and it has closed `closed`. */
  ghost predicate Tracks(steps: seq<Step>, n: nat, start: int, s: State, clock: int, closed: seq<nat>) {
    && n <= |steps| && After(steps[..n], start) == s && clock == Clock(steps[..n], start)
    && closed == AllClosed(steps[..n], start) && NoneAfter(s.conns, clock)
    && (s.stop <==> Terminated(steps, n)) && RanTo(steps, n)
  }

  /** No earlier point was one to stop at. */
  ghost predicate RanTo(steps: seq<Step>, n: nat) {
    n == 0 || (RanTo(steps, n - 1) && !StopsAt(steps, n - 1))
  }

  lemma {:induction false} RanToAll(steps: seq<Step>, n: nat)
    requires RanTo(steps, n)
    ensures forall k :: 0 <= k < n ==> !StopsAt(steps, k)
  {
    if n > 0 { RanToAll(steps, n - 1); }
  }

  lemma TracksNext(steps: seq<Step>, n: nat, start: int, s: State, clock: int, closed: seq<nat>)
    requires History(steps, start) && n < |steps| && Tracks(steps, n, start, s, clock, closed) && !StopsAt(steps, n)
    ensures Possible(s, steps[n]) && clock <= TimeOf(steps[n], clock)
    ensures Tracks(steps, n + 1, start, Next(s, steps[n]), TimeOf(steps[n], clock), closed + Closes(s, steps[n]))
    ensures StopsAt(steps, n + 1) <==> steps[n].BatchEnd? && Next(s, steps[n]).stop
  {
    HistoryPrefix(steps, n + 1, start);
    Unfold(steps, n, start);
    NextNoneAfter(s, steps[n], clock);
    TerminatedNext(steps, n);
  }

  lemma TerminatedNext(h: seq<Step>, n: nat)
    requires n < |h|
    ensures Terminated(h, n + 1) <==> Terminated(h, n) || h[n].SigTerm?
  {
  }

  /** One step of the loop, as a step of the history. */
  method Advance(timers: SortTimerList, users: array<Node?<Payload>>, steps: seq<Step>, n: nat,
                 timeout: bool, stop: bool, closed: seq<nat>,
                 ghost start: int, ghost cs: seq<Conn>, ghost clock: int, ghost owned: set<UtilTimer>)
    returns (timeout': bool, stop': bool, closed': seq<nat>, ghost cs': seq<Conn>, ghost clock': int, ghost owned': set<UtilTimer>)
    requires History(steps, start) && n < |steps| && !StopsAt(steps, n)
    requires Tracks(steps, n, start, State(cs, timeout, stop), clock, closed)
    requires timers.Valid() && Paired(cs, users, timers.nodes) && forall t :: t in timers.nodes ==> t in owned
    modifies users, timers, owned
    ensures timers.Valid() && Paired(cs', users, timers.nodes)
    ensures Tracks(steps, n + 1, start, State(cs', timeout', stop'), clock', closed')
    ensures StopsAt(steps, n + 1) <==> steps[n].BatchEnd? && stop'
    ensures owned <= owned' && fresh(owned' - owned) && forall t :: t in timers.nodes ==> t in owned'
  {
    TracksNext(steps, n, start, State(cs, timeout, stop), clock, closed);
    cs', clock' := Next(State(cs, timeout, stop), steps[n]).conns, TimeOf(steps[n], clock);
    var cl;
    cl, timeout', stop', owned' := Handle(timers, users, steps[n], timeout, stop, cs, clock, owned);
    closed' := closed + cl;
  }

  /** The server: it consumes steps until it is told to stop, and reports what it closed. */
  method Serve(steps: seq<Step>, start: int) returns (n: nat, closed: seq<nat>)
    requires History(steps, start)
    ensures n <= |steps| && closed == AllClosed(steps[..n], start)
    ensures n == |steps| || StopsAt(steps, n)
    ensures forall k :: 0 <= k < n ==> !StopsAt(steps, k)
  {
    var timers := new SortTimerList();
    var users := new Node?<Payload>[FD_LIMIT](_ => null);
    var timeout, stop, done := false, false, false;
    ghost var cs, clock, owned: set<UtilTimer> := [], start, {};
    n, closed := 0, [];
    while n < |steps| && !done
      invariant Tracks(steps, n, start, State(cs, timeout, stop), clock, closed)
      invariant timers.Valid() && Paired(cs, users, timers.nodes)
      invariant fresh(timers) && fresh(users) && fresh(owned) && forall t :: t in timers.nodes ==> t in owned
      invariant done <==> StopsAt(steps, n)
    {
      timeout, stop, closed, cs, clock, owned :=
        Advance(timers, users, steps, n, timeout, stop, closed, start, cs, clock, owned);
      done, n := steps[n].BatchEnd? && stop, n + 1;
    }
    RanToAll(steps, n);
  }

  // ---------- what the histories mean ----------

  /** When descriptor `fd` was last accepted or last sent data. */
  function LastActivity(h: seq<Step>, fd: nat): int {
    if h == [] then 0
    else
      match h[|h| - 1]
      case Accept(f, now) => if f == fd then now else LastActivity(h[..|h| - 1], fd)
      case Data(f, now) => if f == fd then now else LastActivity(h[..|h| - 1], fd)
      case _ => LastActivity(h[..|h| - 1], fd)
  }

  /** An alarm has arrived since the last batch ended. */
  predicate Pending(h: seq<Step>) {
    h != [] && (h[|h| - 1].SigAlrm? || (!h[|h| - 1].BatchEnd? && Pending(h[..|h| - 1])))
  }

  /** Which descriptors ought to be open, told without any timer or list. */
  function OpenSet(h: seq<Step>): set<nat> {
    if h == [] then {}
    else
      var p := h[..|h| - 1];
      match h[|h| - 1]
      case Accept(fd, _) => OpenSet(p) + {fd}
      case HangUp(fd) => OpenSet(p) - {fd}
      case BatchEnd(now) =>
        if Pending(p) then set fd | fd in OpenSet(p) && now - LastActivity(p, fd) < LIFETIME else OpenSet(p)
      case _ => OpenSet(p)
  }

  predicate OlderThan(a: Conn, b: Conn) {
    a.fd != b.fd && a.last <= b.last
  }

  ghost predicate ByRecency(cs: seq<Conn>) {
    forall i, j {:trigger OlderThan(cs[i], cs[j])} :: 0 <= i < j < |cs| ==> OlderThan(cs[i], cs[j])
  }

  lemma NextByRecency(s: State, step: Step, clock: int)
    requires Possible(s, step) && ByRecency(s.conns) && NoneAfter(s.conns, clock) && clock <= TimeOf(step, clock)
    ensures ByRecency(Next(s, step).conns)
  {
    var cs, cs' := s.conns, Next(s, step).conns;
    forall i, j | 0 <= i < j < |cs'| ensures OlderThan(cs'[i], cs'[j]) {
      match step
      case Accept(_, _) => assert j < |cs| ==> OlderThan(cs[i], cs[j]);
      case Data(fd, _) => OlderRest(cs, Find(cs, fd), i, j);
      case HangUp(fd) => OlderRest(cs, Find(cs, fd), i, j);
      case BatchEnd(now) =>
        var n := |cs| - |cs'|;
        assert OlderThan(cs[i + n], cs[j + n]);
      case _ => assert OlderThan(cs[i], cs[j]);
    }
  }

  lemma OlderRest(cs: seq<Conn>, k: nat, i: nat, j: nat)
    requires ByRecency(cs) && k < |cs| && i < j < |cs|
    ensures i < |cs| - 1 ==> RemoveAt(cs, k)[i].fd != cs[k].fd
    ensures j < |cs| - 1 ==> OlderThan(RemoveAt(cs, k)[i], RemoveAt(cs, k)[j])
  {
    var i', j' := if i < k then i else i + 1, if j < k then j else j + 1;
    assert i' < k ==> OlderThan(cs[i'], cs[k]);
    assert k < i' < |cs| ==> OlderThan(cs[k], cs[i']);
    assert j' < |cs| ==> OlderThan(cs[i'], cs[j']);
  }

  /** The connection list holds exactly the open descriptors with their last activity. */
  ghost predicate Describes(cs: seq<Conn>, h: seq<Step>) {
    && (forall c :: c in cs ==> c.fd in OpenSet(h) && c.last == LastActivity(h, c.fd))
    && (forall fd :: fd in OpenSet(h) ==> Conn(fd, LastActivity(h, fd)) in cs)
  }

  lemma RemoveConn(cs: seq<Conn>, fd: nat)
    requires ByRecency(cs) && IsOpen(cs, fd)
    ensures forall c :: c in RemoveAt(cs, Find(cs, fd)) <==> c in cs && c.fd != fd
  {
    var k := Find(cs, fd);
    var r := RemoveAt(cs, k);
    forall c ensures c in r <==> c in cs && c.fd != fd {
      if c in r {
        var i :| 0 <= i < |r| && r[i] == c;
        OlderRest(cs, k, i, |cs| - 1);
        assert c == cs[if i < k then i else i + 1];
      }
      if c in cs && c.fd != fd {
        var j :| 0 <= j < |cs| && cs[j] == c;
        assert r[if j < k then j else j - 1] == c;
      }
    }
  }

  lemma DropIdle(cs: seq<Conn>, now: int)
    requires ByRecency(cs)
    ensures forall c :: c in cs[..IdleCount(cs, now)] <==> c in cs && c.last + LIFETIME <= now
    ensures forall c :: c in cs[IdleCount(cs, now)..] <==> c in cs && now < c.last + LIFETIME
  {
    var n := IdleCount(cs, now);
    forall i | n <= i < |cs| ensures now < cs[i].last + LIFETIME {
      if n < i { assert OlderThan(cs[n], cs[i]); }
    }
    forall c | c in cs ensures if c.last + LIFETIME <= now then c in cs[..n] else c in cs[n..] {
      var i :| 0 <= i < |cs| && cs[i] == c;
      assert if i < n then c == cs[..n][i] else c == cs[n..][i - n];
    }
  }

  lemma DescribesNext(s: State, h: seq<Step>, step: Step)
    requires Possible(s, step) && ByRecency(s.conns) && Describes(s.conns, h) && s.timeout == Pending(h)
    ensures Describes(Next(s, step).conns, h + [step])
    ensures Next(s, step).timeout == Pending(h + [step])
  {
    assert (h + [step])[..|h|] == h;
    var cs := s.conns;
    match step
    case Accept(_, _) => DescribesOpened(cs, h, step);
    case Data(_, _) => DescribesActive(cs, h, step);
    case HangUp(_) => DescribesClosed(cs, h, step);
    case BatchEnd(_) => if s.timeout { DescribesTick(cs, h, step); } else { DescribesSame(cs, h, step); }
    case _ => DescribesSame(cs, h, step);
  }

  lemma DescribesClosed(cs: seq<Conn>, h: seq<Step>, step: Step)
    requires Describes(cs, h) && ByRecency(cs) && step.HangUp? && IsOpen(cs, step.fd)
    ensures Describes(RemoveAt(cs, Find(cs, step.fd)), h + [step])
  {
    assert (h + [step])[..|h|] == h;
    RemoveConn(cs, step.fd);
  }

  lemma DescribesTick(cs: seq<Conn>, h: seq<Step>, step: Step)
    requires Describes(cs, h) && ByRecency(cs) && step.BatchEnd? && Pending(h)
    ensures Describes(cs[IdleCount(cs, step.now)..], h + [step])
  {
    assert (h + [step])[..|h|] == h;
    DropIdle(cs, step.now);
  }

  lemma DescribesSame(cs: seq<Conn>, h: seq<Step>, step: Step)
    requires Describes(cs, h) && !step.Accept? && !step.Data? && !step.HangUp? && (step.BatchEnd? ==> !Pending(h))
    ensures Describes(cs, h + [step])
  {
    assert (h + [step])[..|h|] == h;
  }

  lemma DescribesOpened(cs: seq<Conn>, h: seq<Step>, step: Step)
    requires Describes(cs, h) && step.Accept? && !IsOpen(cs, step.fd)
    ensures Describes(cs + [Conn(step.fd, step.now)], h + [step])
  {
    assert (h + [step])[..|h|] == h;
    IsOpenIff(cs, step.fd);
  }

  lemma DescribesActive(cs: seq<Conn>, h: seq<Step>, step: Step)
    requires Describes(cs, h) && ByRecency(cs) && step.Data? && IsOpen(cs, step.fd)
    ensures Describes(RemoveAt(cs, Find(cs, step.fd)) + [Conn(step.fd, step.now)], h + [step])
  {
    assert (h + [step])[..|h|] == h;
    RemoveConn(cs, step.fd);
    IsOpenIff(cs, step.fd);
  }

  lemma IsOpenIff(cs: seq<Conn>, fd: nat)
    ensures IsOpen(cs, fd) <==> exists c :: c in cs && c.fd == fd
  {
    if IsOpen(cs, fd) { assert cs[Find(cs, fd)] in cs; }
  }

  /** Over every history, the server's connections are the ones that ought to be
  open, in order of last activity. */
  lemma {:induction false} HistoryMeaning(h: seq<Step>, start: int)
    requires History(h, start)
    ensures Describes(After(h, start).conns, h) && After(h, start).timeout == Pending(h)
    ensures ByRecency(After(h, start).conns) && NoneAfter(After(h, start).conns, Clock(h, start))
  {
    if h != [] {
      var p, step := h[..|h| - 1], h[|h| - 1];
      HistoryMeaning(p, start);
      assert p + [step] == h;
      DescribesNext(After(p, start), p, step);
      NextByRecency(After(p, start), step, Clock(p, start));
      NextNoneAfter(After(p, start), step, Clock(p, start));
    }
  }

  lemma ClosesIffIdle(cs: seq<Conn>, h: seq<Step>, now: int, fd: nat)
    requires Describes(cs, h) && ByRecency(cs)
    ensures fd in Fds(cs[..IdleCount(cs, now)]) <==> fd in OpenSet(h) && now - LastActivity(h, fd) >= LIFETIME
  {
    var n := IdleCount(cs, now);
    var closed := Fds(cs[..n]);
    DropIdle(cs, now);
    if fd in closed {
      var i :| 0 <= i < |closed| && closed[i] == fd;
      assert cs[..n][i] in cs[..n];
    }
    if fd in OpenSet(h) && now - LastActivity(h, fd) >= LIFETIME {
      var i :| 0 <= i < n && cs[..n][i] == Conn(fd, LastActivity(h, fd));
      assert closed[i] == fd;
    }
  }

  /** Each tick closes exactly the connections idle for at least three time slots,
  in order of last activity. */
  lemma TickClosesExactlyTheIdle(h: seq<Step>, now: int, start: int)
    requires History(h, start) && Pending(h)
    ensures var closed := Closes(After(h, start), BatchEnd(now));
            && (forall fd :: fd in closed <==> fd in OpenSet(h) && now - LastActivity(h, fd) >= 3 * TIMESLOT)
            && (forall i, j :: 0 <= i < j < |closed| ==>
                  closed[i] != closed[j] && LastActivity(h, closed[i]) <= LastActivity(h, closed[j]))
  {
    HistoryMeaning(h, start);
    var cs, n := After(h, start).conns, IdleCount(After(h, start).conns, now);
    var closed := Fds(cs[..n]);
    forall fd ensures fd in closed <==> fd in OpenSet(h) && now - LastActivity(h, fd) >= LIFETIME {
      ClosesIffIdle(cs, h, now, fd);
    }
    forall i, j | 0 <= i < j < |closed|
      ensures closed[i] != closed[j] && LastActivity(h, closed[i]) <= LastActivity(h, closed[j])
    {
      assert OlderThan(cs[i], cs[j]) && cs[i] in cs && cs[j] in cs;
    }
  }

  /** The loop's stop flag is set exactly if SIGTERM has arrived. */
  lemma {:induction false} StopMeaning(h: seq<Step>, start: int)
    requires History(h, start)
    ensures After(h, start).stop <==> exists i :: 0 <= i < |h| && h[i].SigTerm?
  {
    if h != [] {
      var p := h[..|h| - 1];
      StopMeaning(p, start);
      assert forall i :: 0 <= i < |p| ==> h[i] == p[i];
    }
  }

  /** How often `fd` was accepted. */
  function Accepts(h: seq<Step>, fd: nat): nat {
    if h == [] then 0
    else
      Accepts(h[..|h| - 1], fd) + match h[|h| - 1] case Accept(f, _) => if f == fd then 1 else 0 case _ => 0
  }

  /** Every descriptor has been closed as often as it was accepted, but for the time that
  it is open now. */
  lemma {:induction false} ClosedWhatWasAccepted(h: seq<Step>, start: int, fd: nat)
    requires History(h, start)
    ensures Accepts(h, fd) == multiset(AllClosed(h, start))[fd] + if fd in OpenSet(h) then 1 else 0
  {
    if h != [] {
      var p, step := h[..|h| - 1], h[|h| - 1];
      ClosedWhatWasAccepted(p, start, fd);
      HistoryMeaning(p, start);
      StepBalance(h, start, fd);
    }
  }

  lemma StepBalance(h: seq<Step>, start: int, fd: nat)
    requires h != [] && History(h, start)
    ensures var p, step := h[..|h| - 1], h[|h| - 1];
            multiset(Closes(After(p, start), step))[fd] + (if fd in OpenSet(h) then 1 else 0) ==
            (if fd in OpenSet(p) then 1 else 0) + if step.Accept? && step.fd == fd then 1 else 0
  {
    var p, step := h[..|h| - 1], h[|h| - 1];
    HistoryMeaning(p, start);
    var s := After(p, start);
    match step
    case Accept(f, _) => OpenIsListed(s.conns, p, f);
    case HangUp(f) => OpenIsListed(s.conns, p, f);
    case BatchEnd(now) =>
      if Pending(p) {
        TickClosesExactlyTheIdle(p, now, start);
        DistinctOnce(Closes(s, step));
      }
    case _ =>
  }

  lemma OpenIsListed(cs: seq<Conn>, h: seq<Step>, fd: nat)
    requires Describes(cs, h)
    ensures IsOpen(cs, fd) <==> fd in OpenSet(h)
  {
    IsOpenIff(cs, fd);
  }
}
