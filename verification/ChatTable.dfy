/** The chat server's table of children: a dense array with swap-removal, and an index
from process id to slot. */
module ChatTable {

  const USER_LIMIT := 5
  const PROCESS_LIMIT := 65536

  /** A client's slot: the child that serves it and the parent's end of its pipe. */
  datatype User = User(pid: int, pipe: int)

  // ---------- the table as a sequence ----------

  function SwapRemove(us: seq<User>, i: nat): seq<User>
    requires i < |us|
  {
    us[i := us[|us| - 1]][..|us| - 1]
  }

  ghost predicate Apart(us: seq<User>) {
    forall i, j :: 0 <= i < j < |us| ==> us[i].pid != us[j].pid && us[i].pipe != us[j].pipe
  }

  /** Swap-removal loses the removed user, nobody else, and keeps the rest apart. */
  lemma SwapRemoveIs(us: seq<User>, i: nat)
    requires i < |us| && Apart(us)
    ensures Apart(SwapRemove(us, i))
    ensures forall u :: u in SwapRemove(us, i) <==> u in us && u != us[i]
  {
    var r := SwapRemove(us, i);
    forall u ensures u in r <==> u in us && u != us[i] {
      if u in us && u != us[i] {
        var j :| 0 <= j < |us| && us[j] == u;
        assert r[if j == |us| - 1 then i else j] == u;
      }
      if u in r {
        var j :| 0 <= j < |r| && r[j] == u;
        assert u == us[if j == i then |us| - 1 else j];
      }
    }
  }

  class Table {
    const users: array<User>
    const subProcess: array<int>   // slot of each process id, or -1
    var count: nat

    ghost predicate Valid()
      reads this, users, subProcess
    {
      && users.Length == USER_LIMIT + 1 && subProcess.Length == PROCESS_LIMIT && count <= USER_LIMIT
      && (forall i :: 0 <= i < count ==> 0 <= users[i].pid < PROCESS_LIMIT && subProcess[users[i].pid] == i)
      && Apart(users[..count])
    }

    /** The live children, slot by slot. */
    ghost function Live(): seq<User>
      requires count <= users.Length
      reads this, users
    {
      users[..count]
    }

    constructor ()
      ensures Valid() && fresh(users) && fresh(subProcess) && Live() == []
    {
      users := new User[USER_LIMIT + 1](_ => User(0, 0));
      subProcess := new int[PROCESS_LIMIT](_ => -1);
      count := 0;
    }

    /** A new client: `pid` is what fork returned, negative if it failed. */
    method Accept(pid: int, pipe: int) returns (ok: bool)
      requires Valid() && pid < PROCESS_LIMIT
      requires forall u :: u in Live() ==> u.pid != pid && u.pipe != pipe
      modifies `count, users, subProcess
      ensures Valid()
      ensures ok <==> old(count) < USER_LIMIT && pid >= 0
      ensures Live() == if ok then old(Live()) + [User(pid, pipe)] else old(Live())
    {
      if count >= USER_LIMIT { return false; }
      users[count] := users[count].(pipe := pipe);
      if pid < 0 { return false; }
      ghost var was := users[..count];
      users[count] := users[count].(pid := pid);
      subProcess[pid] := count;
      count := count + 1;
      assert users[..count] == was + [User(pid, pipe)];
      ok := true;
    }

    /** A child has exited: the last slot moves into its place.  When it was itself the
    last, its index entry is left behind, stale.  A child without a slot is passed over. */
    method Reap(pid: int, ghost i: nat)
      requires Valid() && 0 <= pid < PROCESS_LIMIT
      requires if i < count then users[i].pid == pid else subProcess[pid] == -1
      modifies `count, users, subProcess
      ensures Valid()
      ensures Live() == if i < old(count) then SwapRemove(old(Live()), i) else old(Live())
      ensures subProcess[pid] == if i < old(count) && i == count then i else -1
    {
      var delUser := subProcess[pid];
      subProcess[pid] := -1;
      if delUser < 0 || delUser > USER_LIMIT { return; }
      ghost var was := users[..count];
      SwapRemoveIs(was, i);
      count := count - 1;
      users[delUser] := users[count];
      subProcess[users[delUser].pid] := delUser;
      assert users[..count] == SwapRemove(was, i);
    }

    /** A notification from the child behind `sockfd` goes to the others. */
    method Broadcast(sockfd: int) returns (sent: seq<int>)
      requires Valid()
      ensures forall i, j :: 0 <= i < j < |sent| ==> sent[i] != sent[j]
      ensures forall p :: p in sent <==> p != sockfd && exists u :: u in Live() && u.pipe == p
    {
      sent := [];
      for j := 0 to count
        invariant forall i, k :: 0 <= i < k < |sent| ==> sent[i] != sent[k]
        invariant forall p :: p in sent <==> p != sockfd && exists u :: u in users[..j] && u.pipe == p
      {
        assert users[..j + 1] == users[..j] + [users[j]];
        assert users[j].pipe !in sent by {
          assert forall u :: u in users[..j] ==> u.pipe != users[j].pipe by {
            assert forall i :: 0 <= i < j ==> users[..j][i] == users[..count][i];
          }
        }
        if users[j].pipe != sockfd {
          sent := sent + [users[j].pipe];
        }
      }
    }
  }

  // ---------- whole runs ----------

  datatype Event = Joined(u: User) | Exited(pid: int)

  function SlotOf(us: seq<User>, pid: int): (i: nat)
    ensures i <= |us| && (i < |us| ==> us[i].pid == pid) && forall j :: 0 <= j < i ==> us[j].pid != pid
  {
    if us == [] || us[0].pid == pid then 0 else 1 + SlotOf(us[1..], pid)
  }

  /** What the kernel may report: fork and socketpair return numbers not in use, and
  only a live child exits. */
  ghost predicate Possible(us: seq<User>, e: Event) {
    match e
    case Joined(u) => |us| < USER_LIMIT && forall v :: v in us ==> v.pid != u.pid && v.pipe != u.pipe
    case Exited(pid) => SlotOf(us, pid) < |us|
  }

  ghost function After(h: seq<Event>): seq<User> {
    if h == [] then []
    else
      var us, e := After(h[..|h| - 1]), h[|h| - 1];
      if !Possible(us, e) then us
      else match e case Joined(u) => us + [u] case Exited(pid) => SwapRemove(us, SlotOf(us, pid))
  }

  ghost predicate History(h: seq<Event>) {
    h == [] || (History(h[..|h| - 1]) && Possible(After(h[..|h| - 1]), h[|h| - 1]))
  }

  /** Who is in the room, told without slots. */
  ghost function Members(h: seq<Event>): set<User> {
    if h == [] then {}
    else
      match h[|h| - 1]
      case Joined(u) => Members(h[..|h| - 1]) + {u}
      case Exited(pid) => set u | u in Members(h[..|h| - 1]) && u.pid != pid
  }

  /** Over every run the dense prefix of the table holds exactly the members, each in
  one slot, with distinct process ids and pipes. */
  lemma {:induction false} TableHoldsMembers(h: seq<Event>)
    requires History(h)
    ensures Apart(After(h)) && |After(h)| <= USER_LIMIT
    ensures forall u :: u in After(h) <==> u in Members(h)
  {
    if h != [] {
      var p := h[..|h| - 1];
      TableHoldsMembers(p);
      var us := After(p);
      match h[|h| - 1]
      case Joined(_) =>
      case Exited(pid) =>
        SwapRemoveIs(us, SlotOf(us, pid));
        SamePid(us, SlotOf(us, pid));
    }
  }

  lemma SamePid(us: seq<User>, i: nat)
    requires Apart(us) && i < |us|
    ensures forall u :: u in us && u.pid == us[i].pid ==> u == us[i]
  {
    forall u | u in us && u.pid == us[i].pid ensures u == us[i] {
      var j :| 0 <= j < |us| && us[j] == u;
    }
  }
}
