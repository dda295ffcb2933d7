/** The select-driven pool of clients: a slot table, the set watched by select, and a
round that stops as soon as all ready descriptors have been served. */
module SelectPool {

  const FD_SETSIZE := 1024

  /** The descriptors in use. */
  ghost function Members(fds: seq<int>): set<int> {
    if fds == [] then {} else Members(fds[1..]) + if fds[0] > 0 then {fds[0]} else {}
  }

  lemma {:induction false} MembersAre(fds: seq<int>)
    ensures Members(fds) == set i | 0 <= i < |fds| && fds[i] > 0 :: fds[i]
  {
    if fds != [] {
      MembersAre(fds[1..]);
      forall i | 1 <= i < |fds| ensures fds[1..][i - 1] == fds[i] {}
      forall x | x in (set i | 0 <= i < |fds| && fds[i] > 0 :: fds[i]) ensures x in Members(fds) {
        var i :| 0 <= i < |fds| && fds[i] > 0 && fds[i] == x;
        assert i > 0 ==> fds[1..][i - 1] == x;
      }
    }
  }

  ghost predicate Unlike(s: seq<int>, i: nat, j: nat)
    requires i < |s| && j < |s|
  {
    s[i] != s[j]
  }

  ghost predicate NoRepeats(s: seq<int>) {
    forall i, j {:trigger Unlike(s, i, j)} :: 0 <= i < j < |s| ==> Unlike(s, i, j)
  }

  /** Used slots hold distinct positive descriptors, free ones -1. */
  ghost predicate Slots(fds: seq<int>, listenfd: int) {
    && |fds| == FD_SETSIZE
    && (forall i :: 0 <= i < |fds| ==> fds[i] == -1 || (fds[i] > 0 && fds[i] != listenfd))
    && (forall i, j {:trigger Unlike(fds, i, j)} :: 0 <= i < j < |fds| && fds[i] > 0 ==> Unlike(fds, i, j))
  }

  ghost function FirstFree(fds: seq<int>): (i: nat)
    ensures i <= |fds| && (i < |fds| ==> fds[i] < 0) && forall j :: 0 <= j < i ==> fds[j] >= 0
  {
    if fds == [] || fds[0] < 0 then 0 else 1 + FirstFree(fds[1..])
  }

  lemma FillSlot(fds: seq<int>, i: nat, fd: int, listenfd: int)
    requires Slots(fds, listenfd) && i < |fds| && fds[i] == -1 && fd > 0 && fd != listenfd && fd !in Members(fds)
    ensures Members(fds[i := fd]) == Members(fds) + {fd} && Slots(fds[i := fd], listenfd)
  {
    var r := fds[i := fd];
    MembersAre(fds);
    MembersAre(r);
    forall j, k | 0 <= j < k < |r| && r[j] > 0 ensures Unlike(r, j, k) {
      if j != i && k != i { assert Unlike(fds, j, k); }
    }
    assert r[i] == fd;
    forall x | x in Members(fds) ensures x in Members(r) {
      var j :| 0 <= j < |fds| && fds[j] > 0 && fds[j] == x;
      assert r[j] == x;
    }
  }

  lemma FreeSlot(fds: seq<int>, i: nat, listenfd: int)
    requires i < |fds| && fds[i] > 0 && Slots(fds, listenfd)
    ensures Members(fds[i := -1]) == Members(fds) - {fds[i]} && Slots(fds[i := -1], listenfd)
  {
    var r := fds[i := -1];
    MembersAre(fds);
    MembersAre(r);
    forall j | 0 <= j < |r| && r[j] > 0 ensures r[j] != fds[i] {
      assert if j < i then Unlike(fds, j, i) else Unlike(fds, i, j);
    }
    forall j, k | 0 <= j < k < |r| && r[j] > 0 ensures Unlike(r, j, k) {
      assert k != i ==> Unlike(fds, j, k);
    }
    forall x | x in Members(fds) && x != fds[i] ensures x in Members(r) {
      var j :| 0 <= j < |fds| && fds[j] > 0 && fds[j] == x;
      assert r[j] == x;
    }
  }

  class Pool {
    const listenfd: int
    const clientfd: array<int>
    var readSet: set<int>
    var readySet: set<int>
    var nready: int
    var maxi: int
    var maxfd: int

    ghost predicate Valid()
      reads this, clientfd
    {
      && listenfd >= 0 && Slots(clientfd[..], listenfd)
      && readSet == {listenfd} + Members(clientfd[..])
      && -1 <= maxi < FD_SETSIZE && (forall i :: maxi < i < FD_SETSIZE ==> clientfd[i] == -1)
      && (forall fd :: fd in readSet ==> fd <= maxfd)
    }

    constructor (listenfd: int)
      requires listenfd >= 0
      ensures Valid() && fresh(clientfd) && readSet == {listenfd} && this.listenfd == listenfd
      ensures maxi == -1 && maxfd == listenfd
    {
      this.listenfd := listenfd;
      clientfd := new int[FD_SETSIZE](_ => -1);
      readSet, readySet, nready, maxi, maxfd := {listenfd}, {}, 0, -1, listenfd;
      new;
      MembersAre(clientfd[..]);
    }

    /** Takes the first free slot for a new connection, if there is one. */
    method AddClient(connfd: int) returns (ok: bool)
      requires Valid() && connfd > 0 && connfd !in readSet
      modifies `readSet, `nready, `maxi, `maxfd, clientfd
      ensures Valid() && nready == old(nready) - 1
      ensures ok <==> -1 in old(clientfd[..])
      ensures readSet == old(readSet) + if ok then {connfd} else {}
      ensures var i := FirstFree(old(clientfd[..]));
              && clientfd[..] == (if ok then old(clientfd[..])[i := connfd] else old(clientfd[..]))
              && maxi == (if ok && i > old(maxi) then i else old(maxi))
              && maxfd == (if ok && connfd > old(maxfd) then connfd else old(maxfd))
    {
      nready := nready - 1;
      var i := 0;
      while i < FD_SETSIZE && clientfd[i] >= 0
        invariant i <= FD_SETSIZE && forall j :: 0 <= j < i ==> clientfd[j] != -1
      {
        i := i + 1;
      }
      if i == FD_SETSIZE { return false; }
      FillSlot(clientfd[..], i, connfd, listenfd);
      ghost var was := clientfd[..];
      clientfd[i] := connfd;
      assert clientfd[..] == was[i := connfd];
      readSet := readSet + {connfd};
      if connfd > maxfd { maxfd := connfd; }
      if i > maxi { maxi := i; }
      ok := true;
    }

    /** Serves the client in slot `i`: echoes a line, or drops the client at end of file. */
    method ServeSlot(i: nat, eof: set<int>)
      requires Valid() && i < FD_SETSIZE && clientfd[i] > 0
      modifies `readSet, clientfd
      ensures Valid()
      ensures clientfd[..] == old(clientfd[..])[i := if old(clientfd[i]) in eof then -1 else old(clientfd[i])]
      ensures clientfd[i + 1..] == old(clientfd[i + 1..])
      ensures readSet == old(readSet) - {old(clientfd[i])} * eof
    {
      var fd := clientfd[i];
      if fd in eof {
        FreeSlot(clientfd[..], i, listenfd);
        ghost var was := clientfd[..];
        readSet := readSet - {fd};
        clientfd[i] := -1;
        assert clientfd[..] == was[i := -1];
      }
    }

    /** One pass over the slots, stopping when no ready descriptor is left.  `eof` tells
    which clients have hung up. */
    method CheckClients(eof: set<int>) returns (served: seq<int>)
      requires Valid() && readySet - {listenfd} <= Members(clientfd[..]) && nready == |readySet - {listenfd}|
      modifies `readSet, `nready, clientfd
      ensures Valid() && nready == 0
      ensures NoRepeats(served)
      ensures forall fd :: fd in served <==> fd in readySet && fd != listenfd
      ensures readSet == old(readSet) - (readySet - {listenfd}) * eof
    {
      ghost var was, ready := clientfd[..], readySet - {listenfd};
      Start(was, ready);
      ghost var i;
      served, i := Sweep(eof, was, ready);
      if maxi < i { Finish(was, i, clientfd[i..], ready); }
      Complete(was, i, ready, eof, served, old(readSet));
    }

    /** What this turn's accept adds to the watched descriptors. */
    ghost function Accepted(ready: set<int>, connfd: int): set<int>
      reads clientfd
    {
      if listenfd in ready && -1 in clientfd[..] then {connfd} else {}
    }

    /** The first half of a turn: select reports the descriptors `ready`; accept, when it
    is called, hands out `connfd`. */
    method Select(ready: set<int>, connfd: int)
      requires Valid() && ready <= readSet && connfd > 0 && connfd !in readSet
      modifies this, clientfd
      ensures Valid() && readySet == ready && nready == |ready - {listenfd}|
      ensures readSet == old(readSet) + old(Accepted(ready, connfd))
    {
      Others(ready, listenfd);
      readySet, nready := ready, |ready|;
      if listenfd in readySet { var _ := AddClient(connfd); }
    }

    /** A whole turn of the main loop: every ready client is served in it, once. */
    method Turn(ready: set<int>, connfd: int, eof: set<int>) returns (served: seq<int>)
      requires Valid() && ready <= readSet && connfd > 0 && connfd !in readSet
      modifies this, clientfd
      ensures Valid() && nready == 0 && NoRepeats(served)
      ensures forall fd :: fd in served <==> fd in ready && fd != listenfd
      ensures readSet == old(readSet + Accepted(ready, connfd)) - (ready - {listenfd}) * eof
    {
      Select(ready, connfd);
      assert ready - {listenfd} <= Members(clientfd[..]);
      served := CheckClients(eof);
    }

    /** The loop of the pass; it has looked at the slots before `i`. */
    method Sweep(eof: set<int>, ghost was: seq<int>, ghost ready: set<int>) returns (served: seq<int>, ghost i: nat)
      requires Slots(was, listenfd) && ready == readySet - {listenfd} == Left(was, 0, ready)
      requires Valid() && Round(was, 0, ready, eof, [], readSet)
      modifies `readSet, `nready, clientfd
      ensures Valid() && i <= FD_SETSIZE && Round(was, i, ready, eof, served, old(readSet)) && (maxi < i || nready <= 0)
    {
      served, i := [], 0;
      var k := 0;
      while k <= maxi && nready > 0
        invariant 0 <= k <= maxi + 1 && Valid() && Round(was, k, ready, eof, served, old(readSet))
        decreases maxi + 1 - k
      {
        served := VisitSlot(k, eof, was, ready, served, old(readSet));
        k := k + 1;
      }
      i := k;
    }

    /** Where a round stands before slot `i`: `nready` counts the ready clients not yet
    visited, the slots still to visit are as they were, and the clients that hung up are
    no longer watched. */
    ghost predicate Round(was: seq<int>, i: nat, ready: set<int>, eof: set<int>, served: seq<int>, watched: set<int>)
      requires i <= |was| == clientfd.Length
      reads this, clientfd
    {
      && nready == |Left(was, i, ready)| && Served(was, i, ready, served)
      && clientfd[i..] == was[i..]
      && readSet == watched - (ready - Left(was, i, ready)) * eof
    }

    method VisitSlot(i: nat, eof: set<int>, ghost was: seq<int>, ghost ready: set<int>, served: seq<int>, ghost watched: set<int>)
      returns (served': seq<int>)
      requires Slots(was, listenfd) && ready == readySet - {listenfd}
      requires Valid() && i <= maxi && Round(was, i, ready, eof, served, watched)
      modifies `readSet, `nready, clientfd
      ensures Valid() && Round(was, i + 1, ready, eof, served', watched)
    {
      served' := served;
      var fd := clientfd[i];
      assert fd == clientfd[i..][0] == was[i] && clientfd[i + 1..] == clientfd[i..][1..] == was[i + 1..];
      Visit(was, i, ready, served, listenfd);
      DropMore(was, i, ready, listenfd, eof, watched);
      if fd > 0 && fd in readySet {
        served' := served + [fd];
        nready := nready - 1;
        ServeSlot(i, eof);
      }
    }
  }

  lemma DropMore(fds: seq<int>, i: nat, ready: set<int>, listenfd: int, eof: set<int>, watched: set<int>)
    requires Slots(fds, listenfd) && i < |fds|
    ensures watched - (ready - Left(fds, i + 1, ready)) * eof
         == watched - (ready - Left(fds, i, ready)) * eof - (if fds[i] > 0 && fds[i] in ready then {fds[i]} * eof else {})
  {
    NextSlot(fds, i, listenfd);
  }

  lemma Others(ready: set<int>, listenfd: int)
    ensures |ready| == |ready - {listenfd}| + if listenfd in ready then 1 else 0
  {
    assert listenfd !in ready ==> ready - {listenfd} == ready;
  }

  lemma Finish(was: seq<int>, i: nat, rest: seq<int>, ready: set<int>)
    requires i <= |was| && rest == was[i..] && forall j :: 0 <= j < |rest| ==> rest[j] == -1
    ensures Left(was, i, ready) == {}
  {
    MembersAre(rest);
  }

  lemma Complete(was: seq<int>, i: nat, ready: set<int>, eof: set<int>, served: seq<int>, watched: set<int>)
    requires i <= |was| && Left(was, i, ready) == {} && Served(was, i, ready, served)
    ensures forall fd :: fd in served <==> fd in ready
    ensures watched - (ready - Left(was, i, ready)) * eof == watched - ready * eof
  {}

  /** The ready clients in the slots from `i` on. */
  ghost function Left(fds: seq<int>, i: nat, ready: set<int>): set<int>
    requires i <= |fds|
  {
    Members(fds[i..]) * ready
  }

  /** `served` lists the ready clients of the slots before `i`, each once. */
  ghost predicate Served(fds: seq<int>, i: nat, ready: set<int>, served: seq<int>)
    requires i <= |fds|
  {
    && (forall fd :: fd in served <==> fd in ready && fd !in Left(fds, i, ready))
    && NoRepeats(served)
  }

  lemma Start(fds: seq<int>, ready: set<int>)
    requires ready <= Members(fds)
    ensures Left(fds, 0, ready) == ready && Served(fds, 0, ready, [])
  {
    assert fds[0..] == fds;
  }

  lemma Visit(fds: seq<int>, i: nat, ready: set<int>, served: seq<int>, listenfd: int)
    requires Slots(fds, listenfd) && i < |fds| && Served(fds, i, ready, served)
    ensures if fds[i] > 0 && fds[i] in ready then
              && Left(fds, i, ready) == Left(fds, i + 1, ready) + {fds[i]}
              && fds[i] !in Left(fds, i + 1, ready) && Served(fds, i + 1, ready, served + [fds[i]])
            else
              Left(fds, i, ready) == Left(fds, i + 1, ready) && Served(fds, i + 1, ready, served)
  {
    NextSlot(fds, i, listenfd);
    if fds[i] > 0 && fds[i] in ready {
      assert fds[i] !in served;
      var more := served + [fds[i]];
      forall j, k | 0 <= j < k < |more| ensures Unlike(more, j, k) {
        assert k < |served| ==> Unlike(served, j, k);
      }
      assert Left(fds, i, ready) == Left(fds, i + 1, ready) + {fds[i]};
    } else {
      assert Left(fds, i, ready) == Left(fds, i + 1, ready);
    }
  }

  lemma NextSlot(fds: seq<int>, i: nat, listenfd: int)
    requires Slots(fds, listenfd) && i < |fds|
    ensures Members(fds[i..]) == Members(fds[i + 1..]) + (if fds[i] > 0 then {fds[i]} else {})
    ensures fds[i] !in Members(fds[i + 1..])
  {
    var rest := fds[i + 1..];
    assert fds[i..][1..] == rest;
    MembersAre(rest);
    forall j | 0 <= j < |rest| && rest[j] > 0 ensures rest[j] != fds[i] {
      assert rest[j] == fds[i + 1 + j];
      assert Unlike(fds, i, i + 1 + j);
    }
  }
}
