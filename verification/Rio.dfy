/** The robust I/O package: buffered and unbuffered reading over a descriptor whose
reads may be short or interrupted, and the echo loop built on it. */
module Rio {

  newtype byte = x: int | 0 <= x < 256

  const NEWLINE: byte := 10
  const RIO_BUFSIZE := 8192
  const MAXLINE := 1024

  // ---------- the kernel's side ----------

  /** How the next system call on a descriptor goes. */
  datatype Outcome = Upto(k: nat) | Interrupted | Failed

  ghost predicate NoFailure(script: seq<Outcome>) {
    forall i :: 0 <= i < |script| ==> !script[i].Failed?
  }

  /** A descriptor open for reading: the bytes still to come, and how the coming calls
  will go.  Calls beyond the script are neither short nor interrupted. */
  class Source {
    var unread: seq<byte>
    var script: seq<Outcome>

    /** read(2): `rc` is -1 with EINTR iff `interrupted`, 0 at end of file, else the
    number of bytes, at least one if any were asked for. */
    method Read(n: nat) returns (rc: int, interrupted: bool, bytes: seq<byte>)
      modifies this
      ensures rc < 0 <==> old(script) != [] && !old(script)[0].Upto?
      ensures rc < 0 ==> rc == -1 && bytes == [] && (interrupted <==> old(script)[0].Interrupted?)
      ensures rc >= 0 ==> rc == |bytes| <= n && (rc == 0 <==> n == 0 || old(unread) == [])
      ensures old(unread) == bytes + unread
      ensures script == if old(script) == [] then [] else old(script)[1..]
    {
      rc, interrupted, bytes := -1, false, [];
      var outcome := if script == [] then Upto(n) else script[0];
      if script != [] { script := script[1..]; }
      match outcome
      case Failed =>
      case Interrupted => interrupted := true;
      case Upto(k) =>
        var m := if k == 0 then 1 else k;
        if m > n { m := n; }
        if m > |unread| { m := |unread|; }
        bytes, unread := unread[..m], unread[m..];
        rc := m;
    }
  }

  /** A write may also take nothing without an error; errno is then what an earlier call
  left in it. */
  datatype WriteOutcome = Takes(k: nat) | Nothing(errnoIsEintr: bool) | WriteInterrupted | WriteFailed

  /** What rio_writen retries. */
  predicate Retried(o: WriteOutcome) {
    o.WriteInterrupted? || (o.Nothing? && o.errnoIsEintr)
  }

  ghost predicate NoWriteFailure(script: seq<WriteOutcome>) {
    forall i :: 0 <= i < |script| ==> script[i].Takes? || Retried(script[i])
  }

  /** A descriptor open for writing. */
  class Sink {
    var written: seq<byte>
    var script: seq<WriteOutcome>

    /** write(2); `eintr` tells whether errno is EINTR after a result that is not positive. */
    method Write(bytes: seq<byte>) returns (rc: int, eintr: bool)
      requires bytes != []
      modifies this
      ensures rc <= 0 <==> old(script) != [] && !old(script)[0].Takes?
      ensures rc <= 0 ==> written == old(written) && (eintr <==> Retried(old(script)[0]))
      ensures rc <= 0 ==> rc == if old(script)[0].Nothing? then 0 else -1
      ensures rc > 0 ==> rc <= |bytes| && written == old(written) + bytes[..rc]
      ensures script == if old(script) == [] then [] else old(script)[1..]
    {
      rc, eintr := -1, false;
      var outcome := if script == [] then Takes(|bytes|) else script[0];
      if script != [] { script := script[1..]; }
      match outcome
      case WriteFailed =>
      case WriteInterrupted => eintr := true;
      case Nothing(stale) => rc, eintr := 0, stale;
      case Takes(k) =>
        rc := if k == 0 then 1 else if k > |bytes| then |bytes| else k;
        written := written + bytes[..rc];
    }
  }

  // ---------- what an unbuffered reader would return ----------

  function Min(a: nat, b: nat): nat { if a < b then a else b }

  /** The bytes of a line that fit a buffer of `maxlen`, with its terminator. */
  function Below(maxlen: nat): nat { if maxlen == 0 then 0 else maxlen - 1 }

  /** The next line with its newline, cut off after `max` bytes or at end of file. */
  function TakeLine(s: seq<byte>, max: nat): seq<byte> {
    if max == 0 || s == [] then []
    else if s[0] == NEWLINE then [s[0]]
    else [s[0]] + TakeLine(s[1..], max - 1)
  }

  /** It is the longest prefix within the limit with no newline before its end. */
  lemma {:induction false} TakeLineIs(s: seq<byte>, max: nat)
    ensures var line := TakeLine(s, max);
            && line <= s && |line| <= max && (s != [] && max > 0 ==> line != [])
            && (forall i :: 0 <= i < |line| - 1 ==> line[i] != NEWLINE)
            && (|line| == max || |line| == |s| || line[|line| - 1] == NEWLINE)
  {
    if max > 0 && s != [] && s[0] != NEWLINE { TakeLineIs(s[1..], max - 1); }
  }

  /** `line` is what a buffer of `maxlen` gets of the stream `s`: it goes on to the first
  newline (10), to maxlen - 1 bytes, or to the end, whichever comes first. */
  ghost predicate IsLine(line: seq<byte>, s: seq<byte>, maxlen: nat) {
    && line <= s && (forall i :: 0 <= i < |line| - 1 ==> line[i] != 10)
    && (if maxlen == 0 then line == [] else
          |line| <= maxlen - 1 && (|line| == maxlen - 1 || |line| == |s| || (line != [] && line[|line| - 1] == 10)))
  }

  lemma LineFits(s: seq<byte>, maxlen: nat)
    ensures IsLine(TakeLine(s, Below(maxlen)), s, maxlen)
  {
    TakeLineIs(s, Below(maxlen));
  }

  // ---------- the buffered reader ----------

  class Reader {
    const fd: Source
    const buf: array<byte>
    var cnt: int       // unread bytes in the buffer; may be -1 after a failed refill
    var bufptr: nat

    ghost predicate Valid()
      reads this
    {
      buf.Length == RIO_BUFSIZE && (cnt > 0 ==> bufptr + cnt <= buf.Length)
    }

    ghost function Buffered(): seq<byte>
      requires Valid()
      reads this, buf
    {
      if cnt > 0 then buf[bufptr..bufptr + cnt] else []
    }

    /** Everything this reader has yet to deliver. */
    ghost function Rest(): seq<byte>
      requires Valid()
      reads this, buf, fd
    {
      Buffered() + fd.unread
    }

    constructor (fd: Source)
      ensures Valid() && fresh(buf) && this.fd == fd && Rest() == fd.unread
    {
      this.fd := fd;
      buf := new byte[RIO_BUFSIZE];
      cnt, bufptr := 0, 0;
    }

    /** Refills an empty buffer; `rc` is -1 on a hard error, 0 at end of file, else 1. */
    method Refill() returns (rc: int)
      requires Valid() && cnt <= 0
      modifies this, buf, fd
      ensures Valid() && Rest() == old(Rest())
      ensures -1 <= rc <= 1 && (rc == 1 <==> cnt > 0)
      ensures rc == 0 ==> Rest() == []
      ensures NoFailure(old(fd.script)) ==> rc != -1 && NoFailure(fd.script)
    {
      while cnt <= 0
        invariant Valid() && Rest() == old(Rest())
        invariant NoFailure(old(fd.script)) ==> NoFailure(fd.script)
        decreases |fd.script|, cnt <= 0
      {
        var n, interrupted, bytes := fd.Read(RIO_BUFSIZE);
        cnt := n;
        if cnt < 0 {
          if !interrupted { return -1; }
        } else if cnt == 0 {
          return 0;
        } else {
          bufptr := 0;
          forall i | 0 <= i < |bytes| { buf[i] := bytes[i]; }
          assert buf[..cnt] == bytes;
        }
      }
      rc := 1;
    }

    /** The copying half of rio_read. */
    method Copy(n: nat) returns (bytes: seq<byte>)
      requires Valid() && cnt > 0
      modifies `bufptr, `cnt
      ensures Valid() && |bytes| == Min(n, old(cnt)) && old(Buffered()) == bytes + Buffered()
    {
      var k := if cnt < n then cnt else n;
      bytes := buf[bufptr..bufptr + k];
      assert buf[bufptr..bufptr + cnt] == bytes + buf[bufptr + k..bufptr + cnt];
      bufptr, cnt := bufptr + k, cnt - k;
    }

    /** rio_read: like read, but out of the buffer; never interrupted. */
    method Read(n: nat) returns (rc: int, bytes: seq<byte>)
      requires Valid()
      modifies this, buf, fd
      ensures Valid() && old(Rest()) == bytes + Rest()
      ensures rc == -1 || rc == |bytes| <= n
      ensures rc == -1 ==> bytes == []
      ensures rc == 0 ==> n == 0 || Rest() == []
      ensures NoFailure(old(fd.script)) ==> rc != -1 && NoFailure(fd.script)
    {
      bytes := [];
      if cnt <= 0 {
        rc := Refill();
        if rc <= 0 { return; }
      }
      ghost var was := Buffered();
      bytes := Copy(n);
      assert was + fd.unread == bytes + (Buffered() + fd.unread);
      rc := |bytes|;
    }

    method ReadByte() returns (r: int, c: byte)
      requires Valid()
      modifies this, buf, fd
      ensures Valid() && -1 <= r <= 1
      ensures r == 1 ==> old(Rest()) != [] && c == old(Rest())[0] && Rest() == old(Rest())[1..]
      ensures r < 1 ==> Rest() == old(Rest()) && (r == 0 ==> Rest() == [])
      ensures NoFailure(old(fd.script)) ==> r != -1 && NoFailure(fd.script)
    {
      var bytes;
      r, bytes := Read(1);
      c := if r == 1 then bytes[0] else 0;
      ghost var was := old(Rest());
      assert was == bytes + Rest();
    }

    /** The loop of rio_readlineb: bytes into `usr` until a newline, `max` bytes, end of
    file, or a hard error, which makes `rc` -1. */
    method Gather(usr: array<byte>, max: nat) returns (rc: int)
      requires Valid() && usr != buf && max <= usr.Length
      modifies this, buf, fd, usr
      ensures Valid() && -1 <= rc <= max
      ensures NoFailure(old(fd.script)) ==> NoFailure(fd.script) && rc != -1
      ensures rc != -1 ==> usr[..rc] == TakeLine(old(Rest()), max)
      ensures rc != -1 ==> old(Rest()) == usr[..rc] + Rest()
    {
      ghost var all := Rest();
      var n, more := 0, true;
      assert usr[..0] == [];
      while n < max && more
        invariant n <= max && Valid() && Split(all, max, usr[..n], Rest(), more)
        invariant NoFailure(old(fd.script)) ==> NoFailure(fd.script)
        decreases max - n, more
      {
        var r;
        r, more := GatherByte(usr, n, max, all);
        if r < 0 { return -1; }
        n := n + r;
      }
      rc := n;
    }

    /** One turn of that loop: `r` bytes, one or none, and whether the line goes on. */
    method GatherByte(usr: array<byte>, n: nat, max: nat, ghost all: seq<byte>) returns (r: int, more: bool)
      requires Valid() && usr != buf && n < max <= usr.Length && Split(all, max, usr[..n], Rest(), true)
      modifies this, buf, fd, usr
      ensures Valid() && -1 <= r <= 1 && (r == 0 ==> !more)
      ensures NoFailure(old(fd.script)) ==> NoFailure(fd.script) && r != -1
      ensures r != -1 ==> Split(all, max, usr[..n + r], Rest(), more)
    {
      ghost var got, rest := usr[..n], Rest();
      var c;
      r, c := ReadByte();
      if r < 0 { return -1, false; }
      SplitStep(all, max, got, rest, c, r == 1);
      more := r == 1 && c != NEWLINE;
      if r == 1 { Put(usr, n, [c]); }
    }

    /** rio_readlineb: the next line into `usr`, NUL-terminated unless the stream is at its
    end, at most maxlen - 1 bytes.  Even with maxlen 0 it writes the terminator. */
    method ReadLine(usr: array<byte>, maxlen: nat) returns (rc: int)
      requires Valid() && usr != buf && maxlen <= usr.Length && 0 < usr.Length
      modifies this, buf, fd, usr
      ensures Valid() && -1 <= rc <= Below(maxlen)
      ensures NoFailure(old(fd.script)) ==> NoFailure(fd.script) && rc != -1
      ensures rc != -1 ==> usr[..rc] == TakeLine(old(Rest()), Below(maxlen))
      ensures rc != -1 ==> old(Rest()) == usr[..rc] + Rest()
      ensures rc > 0 || (rc == 0 && maxlen <= 1) ==> usr[rc] == 0
      ensures rc != -1 ==> IsLine(usr[..rc], old(Rest()), maxlen)
    {
      LineFits(Rest(), maxlen);
      rc := Gather(usr, Below(maxlen));
      if rc < 0 || (rc == 0 && maxlen > 1) { return; }
      ghost var line, rest := usr[..rc], Rest();
      usr[rc] := 0;
      assert usr[..rc] == line && Rest() == rest;
    }

    /** rio_readnb: exactly `n` bytes, or as many as there are. */
    method ReadNb(usr: array<byte>, n: nat) returns (rc: int)
      requires Valid() && usr != buf && n <= usr.Length
      modifies this, buf, fd, usr
      ensures Valid() && -1 <= rc <= n
      ensures NoFailure(old(fd.script)) ==> NoFailure(fd.script) && rc != -1
      ensures rc != -1 ==> rc == Min(n, |old(Rest())|) && old(Rest()) == usr[..rc] + Rest()
    {
      ghost var all := Rest();
      var got := 0;
      while got < n
        invariant got <= n && Valid() && all == usr[..got] + Rest()
        invariant NoFailure(old(fd.script)) ==> NoFailure(fd.script)
      {
        var r := ReadSome(usr, got, n, all);
        if r < 0 { return -1; }
        if r == 0 { break; }
        got := got + r;
      }
      rc := got;
    }

    /** One turn of that loop. */
    method ReadSome(usr: array<byte>, got: nat, n: nat, ghost all: seq<byte>) returns (r: int)
      requires Valid() && usr != buf && got < n <= usr.Length && all == usr[..got] + Rest()
      modifies this, buf, fd, usr
      ensures Valid() && -1 <= r <= n - got
      ensures NoFailure(old(fd.script)) ==> NoFailure(fd.script) && r != -1
      ensures r != -1 ==> all == usr[..got + r] + Rest() && (r == 0 ==> Rest() == [])
    {
      ghost var rest := Rest();
      var bytes;
      r, bytes := Read(n - got);
      if r < 0 { return; }
      ghost var more := Rest();
      Append(all, usr[..got], rest, bytes, more);
      Put(usr, got, bytes);
      assert Rest() == more;
    }
  }

  /** memcpy into a caller's buffer. */
  method Put(usr: array<byte>, at: nat, bytes: seq<byte>)
    requires at + |bytes| <= usr.Length
    modifies usr
    ensures usr[..at + |bytes|] == old(usr[..at]) + bytes
  {
    forall i | 0 <= i < |bytes| { usr[at + i] := bytes[i]; }
  }

  lemma Append(all: seq<byte>, got: seq<byte>, rest: seq<byte>, bytes: seq<byte>, more: seq<byte>)
    requires all == got + rest && rest == bytes + more
    ensures all == got + bytes + more
  {
  }

  /** rio_readn: the same without a buffer. */
  method ReadN(fd: Source, usr: array<byte>, n: nat) returns (rc: int)
    requires n <= usr.Length
    modifies fd, usr
    ensures -1 <= rc <= n
    ensures NoFailure(old(fd.script)) ==> NoFailure(fd.script) && rc != -1
    ensures rc != -1 ==> rc == Min(n, |old(fd.unread)|) && old(fd.unread) == usr[..rc] + fd.unread
  {
    ghost var all := fd.unread;
    var got := 0;
    while got < n
      invariant got <= n && all == usr[..got] + fd.unread
      invariant NoFailure(old(fd.script)) ==> NoFailure(fd.script)
      decreases n - got, |fd.script|
    {
      ghost var rest := fd.unread;
      var r, interrupted, bytes := fd.Read(n - got);
      if r < 0 {
        if !interrupted { return -1; }
        r := 0;
      } else if r == 0 {
        break;
      }
      Append(all, usr[..got], rest, bytes, fd.unread);
      Put(usr, got, bytes);
      got := got + r;
    }
    rc := got;
  }

  /** rio_writen: all of the first `n` bytes, or -1. */
  method WriteN(sink: Sink, usr: array<byte>, n: nat) returns (rc: int)
    requires n <= usr.Length
    modifies sink
    ensures rc == -1 || rc == n
    ensures NoWriteFailure(old(sink.script)) ==> NoWriteFailure(sink.script) && rc == n
    ensures rc == n ==> sink.written == old(sink.written) + usr[..n]
  {
    var done := 0;
    while done < n
      invariant done <= n && sink.written == old(sink.written) + usr[..done]
      invariant NoWriteFailure(old(sink.script)) ==> NoWriteFailure(sink.script)
      decreases n - done, |sink.script|
    {
      ghost var out := usr[..n];
      var r, eintr := sink.Write(usr[done..n]);
      if r <= 0 {
        if !eintr { return -1; }
        r := 0;
      } else {
        Written(old(sink.written), out, done, r);
      }
      done := done + r;
    }
    rc := n;
  }

  lemma Written(before: seq<byte>, out: seq<byte>, done: nat, r: nat)
    requires done + r <= |out|
    ensures before + out[..done] + out[done..][..r] == before + out[..done + r]
  {
    assert out[..done + r] == out[..done] + out[done..][..r];
  }

  /** `got` has been read of `all` and `rest` is left; while there is `more` to the
  line, the line goes on in `rest`. */
  ghost predicate Split(all: seq<byte>, max: nat, got: seq<byte>, rest: seq<byte>, more: bool) {
    && |got| <= max && all == got + rest
    && TakeLine(all, max) == if more then got + TakeLine(rest, max - |got|) else got
  }

  lemma SplitStep(all: seq<byte>, max: nat, got: seq<byte>, rest: seq<byte>, c: byte, any: bool)
    requires Split(all, max, got, rest, true) && |got| < max
    requires if any then rest != [] && c == rest[0] else rest == []
    ensures if any then Split(all, max, got + [c], rest[1..], c != NEWLINE) else Split(all, max, got, rest, false)
  {
    if any {
      assert rest == [c] + rest[1..];
      assert got + ([c] + rest[1..]) == got + [c] + rest[1..];
      var tail := TakeLine(rest[1..], max - |got| - 1);
      assert got + ([c] + tail) == got + [c] + tail;
    }
  }

  // ---------- whole sessions ----------

  datatype Request = Line(maxlen: nat) | Bytes(n: nat)

  /** What an unbuffered reader of the stream `s` would return. */
  function Answer(s: seq<byte>, r: Request): seq<byte> {
    match r
    case Line(maxlen) => TakeLine(s, Below(maxlen))
    case Bytes(n) => s[..Min(n, |s|)]
  }

  lemma AnswerIsPrefix(s: seq<byte>, r: Request)
    ensures Answer(s, r) <= s
  {
    if r.Line? { TakeLineIs(s, Below(r.maxlen)); }
  }

  function Answers(s: seq<byte>, rs: seq<Request>): seq<seq<byte>>
    decreases |rs|
  {
    if rs == [] then []
    else
      var out := Answer(s, rs[0]);
      AnswerIsPrefix(s, rs[0]);
      [out] + Answers(s[|out|..], rs[1..])
  }

  function Flatten(outs: seq<seq<byte>>): seq<byte> {
    if outs == [] then [] else Flatten(outs[..|outs| - 1]) + outs[|outs| - 1]
  }

  ghost predicate Fits(rs: seq<Request>, room: nat) {
    forall i :: 0 <= i < |rs| ==>
      match rs[i] case Line(maxlen) => maxlen <= room case Bytes(n) => n <= room
  }

  /** One request against the buffered reader. */
  method Ask(rd: Reader, usr: array<byte>, r: Request) returns (out: seq<byte>)
    requires rd.Valid() && usr != rd.buf && NoFailure(rd.fd.script) && Fits([r], usr.Length) && 0 < usr.Length
    modifies rd, rd.buf, rd.fd, usr
    ensures rd.Valid() && NoFailure(rd.fd.script)
    ensures out == Answer(old(rd.Rest()), r) && old(rd.Rest()) == out + rd.Rest()
  {
    assert match [r][0] case Line(maxlen) => maxlen <= usr.Length case Bytes(n) => n <= usr.Length;
    var rc;
    match r {
      case Line(maxlen) => rc := rd.ReadLine(usr, maxlen);
      case Bytes(n) => rc := rd.ReadNb(usr, n);
    }
    out := usr[..rc];
  }

  /** Any mix of line and byte reads through the buffer returns what an unbuffered
  reader of the same stream would, and loses nothing. */
  method Session(rd: Reader, usr: array<byte>, rs: seq<Request>) returns (outs: seq<seq<byte>>)
    requires rd.Valid() && usr != rd.buf && NoFailure(rd.fd.script) && Fits(rs, usr.Length) && 0 < usr.Length
    modifies rd, rd.buf, rd.fd, usr
    ensures rd.Valid() && outs == Answers(old(rd.Rest()), rs)
    ensures Flatten(outs) + rd.Rest() == old(rd.Rest())
  {
    outs := [];
    ghost var all, rest := rd.Rest(), rd.Rest();
    for i := 0 to |rs|
      invariant rd.Valid() && NoFailure(rd.fd.script) && rd.Rest() == rest
      invariant Answers(all, rs) == outs + Answers(rest, rs[i..])
      invariant all == Flatten(outs) + rest
    {
      var out := Ask(rd, usr, rs[i]);
      SessionStep(all, rs, i, outs, rest, out, rd.Rest());
      outs, rest := outs + [out], rd.Rest();
    }
  }

  lemma SessionStep(
    all: seq<byte>, rs: seq<Request>, i: nat, outs: seq<seq<byte>>, rest: seq<byte>, out: seq<byte>, more: seq<byte>)
    requires i < |rs| && Answers(all, rs) == outs + Answers(rest, rs[i..]) && all == Flatten(outs) + rest
    requires out == Answer(rest, rs[i]) && rest == out + more
    ensures Answers(all, rs) == outs + [out] + Answers(more, rs[i + 1..])
    ensures all == Flatten(outs + [out]) + more
  {
    assert rs[i..][1..] == rs[i + 1..] && rest[|out|..] == more;
    assert (outs + [out])[..|outs|] == outs;
  }

  /** One turn of the echo loop: a line in, the same line out. */
  method EchoLine(rio: Reader, usr: array<byte>, sink: Sink) returns (n: nat)
    requires rio.Valid() && usr != rio.buf && usr.Length == MAXLINE
    requires NoFailure(rio.fd.script) && NoWriteFailure(sink.script)
    modifies rio, rio.buf, rio.fd, usr, sink
    ensures rio.Valid() && NoFailure(rio.fd.script) && NoWriteFailure(sink.script)
    ensures sink.written + rio.Rest() == old(sink.written) + old(rio.Rest())
    ensures n == 0 <==> old(rio.Rest()) == []
    ensures |rio.Rest()| <= |old(rio.Rest())| && (n > 0 ==> |rio.Rest()| < |old(rio.Rest())|)
  {
    ghost var all, before := rio.Rest(), sink.written;
    n := rio.ReadLine(usr, MAXLINE);
    TakeLineIs(all, MAXLINE - 1);
    ghost var line, rest := usr[..n], rio.Rest();
    if n != 0 {
      var m := WriteN(sink, usr, n);
    }
    assert sink.written == before + line && rio.Rest() == rest;
    Append(before + all, before, all, line, rest);
  }

  /** The echo loop writes back exactly what it reads, and ends at end of file. */
  method Echo(fd: Source, sink: Sink)
    requires NoFailure(fd.script) && NoWriteFailure(sink.script)
    modifies fd, sink
    ensures sink.written == old(sink.written) + old(fd.unread) && fd.unread == []
  {
    var rio := new Reader(fd);
    var usr := new byte[MAXLINE];
    var n := EchoLine(rio, usr, sink);
    while n != 0
      invariant rio.Valid() && usr != rio.buf && NoFailure(fd.script) && NoWriteFailure(sink.script)
      invariant sink.written + rio.Rest() == old(sink.written) + old(fd.unread)
      invariant n == 0 ==> rio.Rest() == []
      decreases |rio.Rest()|, n != 0
    {
      n := EchoLine(rio, usr, sink);
    }
  }
}
