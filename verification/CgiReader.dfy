/** The CGI connection's incremental search for the CRLF that ends a file name. */
module CgiReader {

  const BUFFER_SIZE := 1024
  const CR := '\r'
  const LF := '\n'
  const NUL := '\0'

  /** What the socket has for recv: bytes, nothing for now, an error, or the end. */
  datatype Event = Data(bytes: string) | Again | Fault | Eof

  /** What becomes of a connection: it waits for more, is dropped, or its first CRLF ends
  at index `lf`. */
  datatype Outcome = Waiting | Dropped | Found(lf: nat)

  ghost predicate Proper(script: seq<Event>) {
    forall i :: 0 <= i < |script| && script[i].Data? ==> script[i].bytes != []
  }

  // ---------- CRLF ----------

  predicate CrLfAt(s: string, i: int) {
    1 <= i < |s| && s[i - 1] == CR && s[i] == LF
  }

  /** `i` is the index of the first LF preceded by CR at or after `from`, or |s|. */
  ghost predicate FirstFrom(s: string, from: nat, i: int) {
    && from <= i <= |s| && (i < |s| ==> CrLfAt(s, i))
    && forall j :: from <= j < i ==> !CrLfAt(s, j)
  }

  function Search(s: string, from: nat): (i: nat)
    requires from <= |s|
    ensures FirstFrom(s, from, i)
    decreases |s| - from
  {
    if from == |s| || CrLfAt(s, from) then from else Search(s, from + 1)
  }

  ghost predicate NoCrLf(s: string) {
    forall i :: 0 <= i < |s| ==> !CrLfAt(s, i)
  }

  /** The fate of a connection from its bytes alone: only what fits the buffer counts. */
  function Verdict(all: string, ended: bool): (o: Outcome) {
    var window := if |all| < BUFFER_SIZE then all else all[..BUFFER_SIZE - 1];
    var i := Search(window, 0);
    if i < |window| then Found(i) else if |all| >= BUFFER_SIZE - 1 || ended then Dropped else Waiting
  }

  /** The verdict without the search: the first CRLF of the stream, if it ends before the
  last cell of the buffer. */
  lemma VerdictMeaning(all: string, ended: bool, i: nat)
    ensures Verdict(all, ended) == Found(i) <==>
            i < BUFFER_SIZE - 1 && CrLfAt(all, i) && forall j :: 0 <= j < i ==> !CrLfAt(all, j)
    ensures Verdict(all, ended) == Waiting <==> !ended && |all| < BUFFER_SIZE - 1 && NoCrLf(all)
  {
    var window := if |all| < BUFFER_SIZE then all else all[..BUFFER_SIZE - 1];
    assert forall j :: 0 <= j < |window| ==> CrLfAt(window, j) == CrLfAt(all, j);
  }

  lemma VerdictFound(all: string, ended: bool, n: nat, i: nat)
    requires n <= |all| && n < BUFFER_SIZE && i < n && FirstFrom(all[..n], 0, i)
    ensures Verdict(all, ended) == Found(i)
  {
    var window := if |all| < BUFFER_SIZE then all else all[..BUFFER_SIZE - 1];
    forall j | 0 <= j < n ensures CrLfAt(window, j) == CrLfAt(all[..n], j) {}
  }

  lemma VerdictFull(all: string, ended: bool)
    requires BUFFER_SIZE - 1 <= |all| && NoCrLf(all[..BUFFER_SIZE - 1])
    ensures Verdict(all, ended) == Dropped
  {
    assert |all| < BUFFER_SIZE ==> all == all[..BUFFER_SIZE - 1];
  }

  lemma VerdictOpen(all: string, ended: bool)
    requires |all| < BUFFER_SIZE - 1 && NoCrLf(all)
    ensures Verdict(all, ended) == if ended then Dropped else Waiting
  {}

  /** A decision once taken is not changed by later bytes. */
  lemma VerdictStands(all: string, more: string, ended: bool)
    requires Verdict(all, false) != Waiting
    ensures Verdict(all + more, ended) == Verdict(all, false)
  {
    var n := if |all| < BUFFER_SIZE then |all| else BUFFER_SIZE - 1;
    assert (all + more)[..n] == all[..n] && (n == |all| ==> all[..n] == all);
    var i := Search(all[..n], 0);
    if i < n {
      VerdictFound(all + more, ended, n, i);
    } else {
      VerdictFull(all + more, ended);
    }
  }

  // ---------- The bytes of a script ----------

  /** The bytes that arrive before recv first reports something else. */
  ghost function Burst(script: seq<Event>): string {
    if script == [] || !script[0].Data? then [] else script[0].bytes + Burst(script[1..])
  }

  ghost function AfterBurst(script: seq<Event>): seq<Event> {
    if script == [] || !script[0].Data? then script else AfterBurst(script[1..])
  }

  /** All bytes that arrive before an error or the end. */
  ghost function Bytes(script: seq<Event>): string {
    if script == [] then []
    else match script[0]
      case Data(bytes) => bytes + Bytes(script[1..])
      case Again => Bytes(script[1..])
      case _ => []
  }

  ghost predicate Ends(script: seq<Event>) {
    script != [] && (script[0].Fault? || script[0].Eof? || Ends(script[1..]))
  }

  ghost predicate EndsNow(script: seq<Event>) {
    var rest := AfterBurst(script);
    rest != [] && rest[0] != Again
  }

  lemma {:induction false} BurstIsPart(script: seq<Event>)
    requires Proper(script)
    ensures Proper(AfterBurst(script)) && Bytes(script) == Burst(script) + Bytes(AfterBurst(script))
    ensures Ends(script) == Ends(AfterBurst(script)) && |AfterBurst(script)| <= |script|
    ensures AfterBurst(script) != [] ==> !AfterBurst(script)[0].Data?
  {
    if script != [] && script[0].Data? {
      assert Proper(script[1..]);
      BurstIsPart(script[1..]);
    }
  }

  /** The script after recv has taken `n` bytes of its first data. */
  function Take(script: seq<Event>, n: nat): (rest: seq<Event>)
    requires script != [] && script[0].Data? && n <= |script[0].bytes| && Proper(script)
    ensures Proper(rest) && script[0].bytes[..n] + Burst(rest) == Burst(script) && AfterBurst(rest) == AfterBurst(script)
  {
    var bytes := script[0].bytes;
    assert bytes == bytes[..n] + bytes[n..];
    if n == |bytes| then script[1..] else
      var rest := [Data(bytes[n..])] + script[1..];
      assert rest[1..] == script[1..];
      rest
  }

  /** The verdict on the bytes so far is the verdict on them all, unless it is to wait. */
  lemma VerdictOfBurst(seen: string, script: seq<Event>)
    requires Proper(script)
    ensures var rest := AfterBurst(script);
            if Verdict(seen + Burst(script), EndsNow(script)) != Waiting then
              && Verdict(seen + Bytes(script), Ends(script)) == Verdict(seen + Burst(script), EndsNow(script))
              && seen + Burst(script) <= seen + Bytes(script)
            else if rest == [] then
              Verdict(seen + Bytes(script), Ends(script)) == Waiting
            else
              && Proper(rest[1..]) && Ends(rest[1..]) == Ends(script) && |rest| <= |script|
              && seen + Burst(script) + Bytes(rest[1..]) == seen + Bytes(script)
  {
    LaterBytes(seen, script);
    var all, rest := seen + Burst(script), AfterBurst(script);
    if !EndsNow(script) && rest != [] && Verdict(all, false) != Waiting {
      VerdictStands(all, Bytes(rest[1..]), Ends(script));
    }
  }

  /** What comes after the burst: nothing more, or the bytes behind an Again. */
  lemma LaterBytes(seen: string, script: seq<Event>)
    requires Proper(script)
    ensures var rest := AfterBurst(script);
            if EndsNow(script) || rest == [] then
              seen + Bytes(script) == seen + Burst(script) && Ends(script) == EndsNow(script)
            else
              && Proper(rest[1..]) && Ends(rest[1..]) == Ends(script) && |rest| <= |script|
              && seen + Bytes(script) == seen + Burst(script) + Bytes(rest[1..])
  {
    BurstIsPart(script);
    var rest := AfterBurst(script);
    assert seen + (Burst(script) + Bytes(rest)) == seen + Burst(script) + Bytes(rest);
  }

  class CgiConn {
    const buf: array<char>
    var readIdx: int

    ghost predicate Valid()
      reads this, buf
    {
      buf.Length == BUFFER_SIZE && 0 <= readIdx < BUFFER_SIZE && NoCrLf(buf[..readIdx])
    }

    constructor ()
      ensures Valid() && readIdx == 0 && fresh(buf)
    {
      buf := new char[BUFFER_SIZE](_ => NUL);
      readIdx := 0;
    }

    /** Stores `bytes` at index `at`. */
    method Store(at: nat, bytes: string)
      requires at + |bytes| <= buf.Length
      modifies buf
      ensures buf[..at + |bytes|] == old(buf[..at]) + bytes
    {
      for k := 0 to |bytes|
        invariant buf[..at + k] == old(buf[..at]) + bytes[..k]
      {
        buf[at + k] := bytes[k];
      }
      assert bytes[..|bytes|] == bytes;
    }

    /** recv at the read index, with the room left before the last cell. */
    method Recv(script: seq<Event>) returns (rest: seq<Event>)
      requires script != [] && script[0].Data? && Proper(script)
      requires buf.Length == BUFFER_SIZE && 0 <= readIdx < BUFFER_SIZE - 1
      modifies `readIdx, buf
      ensures old(readIdx) < readIdx < BUFFER_SIZE && Proper(rest)
      ensures buf[..old(readIdx)] == old(buf[..readIdx])
      ensures buf[..readIdx] + Burst(rest) == old(buf[..readIdx]) + Burst(script) && AfterBurst(rest) == AfterBurst(script)
    {
      var n := if |script[0].bytes| < BUFFER_SIZE - readIdx then |script[0].bytes| else BUFFER_SIZE - 1 - readIdx;
      rest := Take(script, n);
      ghost var before := buf[..readIdx];
      Store(readIdx, script[0].bytes[..n]);
      assert buf[..readIdx] == buf[..readIdx + n][..readIdx];
      assert (before + script[0].bytes[..n]) + Burst(rest) == before + (script[0].bytes[..n] + Burst(rest));
      readIdx := readIdx + n;
    }

    /** The inner loop: looks for CRLF among the bytes just read, and the one before. */
    method Scan(from: nat) returns (i: int)
      requires buf.Length == BUFFER_SIZE && from <= readIdx < BUFFER_SIZE && NoCrLf(buf[..from])
      ensures FirstFrom(buf[..readIdx], 0, i) && from <= i
    {
      i := from;
      assert forall j :: 0 <= j < from ==> CrLfAt(buf[..readIdx], j) == CrLfAt(buf[..from], j);
      while i < readIdx && !(i >= 1 && buf[i - 1] == CR && buf[i] == LF)
        invariant from <= i <= readIdx && forall j :: 0 <= j < i ==> !CrLfAt(buf[..readIdx], j)
      {
        i := i + 1;
      }
    }

    /** Reads and scans until recv has nothing to give, the peer is gone, or CRLF shows. */
    method Process(script: seq<Event>) returns (o: Outcome, rest: seq<Event>)
      requires Valid() && Proper(script)
      modifies this, buf
      ensures readIdx < BUFFER_SIZE
      ensures o == Verdict(old(buf[..readIdx]) + Burst(script), EndsNow(script))
      ensures o.Found? ==> Cut(old(buf[..readIdx]) + Burst(script), o.lf, buf[..])
      ensures o.Waiting? ==> Valid() && buf[..readIdx] == old(buf[..readIdx]) + Burst(script) && rest == AfterBurst(script)
    {
      rest := script;
      ghost var all := buf[..readIdx] + Burst(script);
      while true
        invariant Valid() && Proper(rest) && AfterBurst(rest) == AfterBurst(script)
        invariant buf[..readIdx] + Burst(rest) == all
        decreases BUFFER_SIZE - readIdx
      {
        assert all[..readIdx] == buf[..readIdx];
        if readIdx == BUFFER_SIZE - 1 {
          VerdictFull(all, EndsNow(script));
          return Dropped, rest;
        }
        if rest == [] || !rest[0].Data? {
          assert all == buf[..readIdx];
          VerdictOpen(all, EndsNow(script));
          return if rest == [] || rest[0] == Again then Waiting else Dropped, rest;
        }
        var from := readIdx;
        rest := Recv(rest);
        var i := Scan(from);
        if i < readIdx {
          assert all[..readIdx] == buf[..readIdx];
          VerdictFound(all, EndsNow(script), readIdx, i);
          ghost var was := buf[..i - 1];
          buf[i - 1] := NUL;
          assert buf[..i - 1] == was;
          return Found(i), rest;
        }
      }
    }

    /** A connection's whole life: a call of process whenever the socket is readable.  Its
    fate depends on the bytes sent, not on how they were cut. */
    method Converse(script: seq<Event>) returns (o: Outcome)
      requires Valid() && Proper(script)
      modifies this, buf
      ensures readIdx < BUFFER_SIZE && o == Verdict(old(buf[..readIdx]) + Bytes(script), Ends(script))
      ensures o.Found? ==> Cut(old(buf[..readIdx]) + Bytes(script), o.lf, buf[..])
      decreases |script|
    {
      ghost var seen := buf[..readIdx];
      var rest;
      o, rest := Process(script);
      VerdictOfBurst(seen, script);
      if o == Waiting && rest != [] { o := Converse(rest[1..]); }
    }
  }

  /** `buf` holds the bytes before the CRLF that ends at `lf`, closed by NUL. */
  ghost predicate Cut(all: string, lf: nat, buf: string) {
    0 < lf < |all| && lf <= |buf| && buf[..lf - 1] == all[..lf - 1] && buf[lf - 1] == NUL
  }
}
