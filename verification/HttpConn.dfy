/** The connection object: the read buffer updated in place by the scanner and the
state machine, proved to do what the value-level parser says. */
module HttpConn {
  import opened HttpText
  import opened HttpLines
  import HttpRequest

  const READ_BUFFER_SIZE := 2048

  class Connection {
    const readBuf: array<char>
    var readIdx: nat
    var checkedIdx: nat
    var startLine: nat
    var checkState: CheckState
    var url: int
    var host: int
    var contentLength: int
    var linger: bool

    ghost predicate Valid()
      reads this
    {
      startLine <= checkedIdx <= readIdx <= readBuf.Length == READ_BUFFER_SIZE
    }

    ghost function View(): (c: Conn)
      requires Valid()
      reads this, readBuf
      ensures InBounds(c)
    {
      Conn(readBuf[..readIdx], checkedIdx, startLine, checkState, url, host, contentLength, linger)
    }

    constructor ()
      ensures Valid() && fresh(readBuf) && View() == Fresh("")
    {
      readBuf := new char[READ_BUFFER_SIZE](_ => '\0');
      readIdx, checkedIdx, startLine := 0, 0, 0;
      checkState, url, host, contentLength, linger := CheckState.RequestLine, -1, -1, 0, false;
    }

    /** Reads until the socket would block.  `pending` are the bytes it has to give,
    `sizes` bounds what each recv returns of them, and `broken` says that an error or the
    end of the stream comes behind them.  A recv into a full buffer asks for nothing, gets
    nothing, and looks like the end of the stream. */
    method Read(pending: string, sizes: seq<nat>, broken: bool) returns (ok: bool)
      requires Valid()
      modifies `readIdx, readBuf
      ensures Valid()
      ensures ok <==> !broken && old(readIdx) + |pending| < READ_BUFFER_SIZE
      ensures View() == Append(old(View()), pending[..Fitting(old(readIdx), |pending|)])
    {
      if readIdx >= READ_BUFFER_SIZE { return false; }
      var taken, i := 0, 0;
      while taken < |pending|
        invariant Valid() && taken <= |pending| && readIdx == old(readIdx) + taken
        invariant readBuf[..readIdx] == old(readBuf[..readIdx]) + pending[..taken]
      {
        var n := READ_BUFFER_SIZE - readIdx;
        if n == 0 { return false; }
        if n > |pending| - taken { n := |pending| - taken; }
        if i < |sizes| && 0 < sizes[i] < n { n := sizes[i]; }
        Store(pending[taken..taken + n]);
        assert pending[..taken + n] == pending[..taken] + pending[taken..taken + n];
        taken, i := taken + n, i + 1;
      }
      ok := readIdx < READ_BUFFER_SIZE && !broken;
    }

    method Store(bytes: string)
      requires Valid() && readIdx + |bytes| <= READ_BUFFER_SIZE
      modifies `readIdx, readBuf
      ensures Valid() && readBuf[..readIdx] == old(readBuf[..readIdx]) + bytes
      ensures readIdx == old(readIdx) + |bytes|
    {
      forall k | 0 <= k < |bytes| {
        readBuf[readIdx + k] := bytes[k];
      }
      readIdx := readIdx + |bytes|;
    }

    /** The loop of parse_line: on to the next CR or LF. */
    method SkipToBreak()
      requires Valid()
      modifies `checkedIdx
      ensures Valid() && checkedIdx == FindBreak(readBuf[..readIdx], old(checkedIdx))
    {
      while checkedIdx < readIdx && !IsBreak(readBuf[checkedIdx])
        invariant Valid() && FindBreak(readBuf[..readIdx], old(checkedIdx)) == FindBreak(readBuf[..readIdx], checkedIdx)
      {
        checkedIdx := checkedIdx + 1;
      }
    }

    method ParseLine() returns (status: LineStatus)
      requires Valid()
      modifies `checkedIdx, readBuf
      ensures Valid()
      ensures (View(), status) == HttpLines.ParseLine(old(View()))
    {
      SkipToBreak();
      if checkedIdx == readIdx { return LineOpen; }
      if readBuf[checkedIdx] == '\r' {
        if checkedIdx + 1 == readIdx { return LineOpen; }
        if readBuf[checkedIdx + 1] == '\n' {
          readBuf[checkedIdx], readBuf[checkedIdx + 1] := '\0', '\0';
          checkedIdx := checkedIdx + 2;
          return LineOk;
        }
        return LineBad;
      }
      if checkedIdx > 1 && readBuf[checkedIdx - 1] == '\r' {
        readBuf[checkedIdx - 1], readBuf[checkedIdx] := '\0', '\0';
        checkedIdx := checkedIdx + 1;
        return LineOk;
      }
      return LineBad;
    }

    method ParseRequestLine(t: nat, text: string) returns (code: Code)
      requires Valid() && t + |text| <= readIdx && checkState == CheckState.RequestLine
      modifies `checkState, `url, readBuf
      ensures Valid()
      ensures (View(), code) == HttpRequest.HandleText(old(View()), t, text)
    {
      var cuts := HttpRequest.CutRequestLine(text);
      if cuts.NoCuts? { return BadRequest; }
      ghost var was := readBuf[..readIdx];
      readBuf[t + cuts.verb] := '\0';
      readBuf[t + cuts.target] := '\0';
      assert readBuf[..readIdx] == was[t + cuts.verb := '\0'][t + cuts.target := '\0'];
      url, checkState := t + cuts.path, Header;
      code := NoRequest;
    }

    method ParseHeaders(t: nat, text: string) returns (code: Code)
      requires Valid() && t + |text| <= readIdx && checkState == Header
      modifies `checkState, `host, `contentLength, `linger
      ensures Valid()
      ensures (View(), code) == HttpRequest.HandleText(old(View()), t, text)
    {
      code := NoRequest;
      if text == "" {
        if contentLength == 0 { return GetRequest; }
        checkState := Content;
      } else if HttpRequest.IsKeepAlive(text) {
        linger := true;
      } else if HttpRequest.IsLength(text) {
        contentLength := Atoi(HttpRequest.Value(text, "Content-Length:"));
      } else if HttpRequest.IsHost(text) {
        host := t + SkipBlank(text, 5);
      }
    }

    /** Checks whether the body has arrived in full; if not, the loop goes on to scan it. */
    method ParseContent() returns (code: Code)
      requires Valid() && checkState == Content
      modifies `startLine
      ensures Valid()
      ensures HttpRequest.ContentTurn(old(View())) ==
              if code.NoRequest? then HttpRequest.Again(View(), false) else HttpRequest.Done(View(), code)
      ensures code.NoRequest? <==> HttpRequest.Incomplete(old(View()))
    {
      startLine := checkedIdx;
      code := if readIdx >= contentLength + checkedIdx then GetRequest else NoRequest;
    }

    /** What the switch does with the line just scanned. */
    method HandleLine() returns (code: Code)
      requires Valid() && checkState != Content
      modifies `startLine, `checkState, `url, `host, `contentLength, `linger, readBuf
      ensures Valid()
      ensures var c := old(View()); (View(), code) == HttpRequest.HandleLine(c.(start := c.checked), c.start)
    {
      var t := startLine;
      var text := CStr(readBuf[..readIdx], t);
      startLine := checkedIdx;
      if checkState == CheckState.RequestLine {
        code := ParseRequestLine(t, text);
      } else {
        code := ParseHeaders(t, text);
      }
    }

    /** One turn of the main loop. */
    method OneTurn(lineOk: bool) returns (done: bool, code: Code, ok: bool)
      requires Valid()
      modifies this, readBuf
      ensures Valid()
      ensures HttpRequest.OneTurn(old(View()), lineOk) ==
              if done then HttpRequest.Done(View(), code) else HttpRequest.Again(View(), ok)
    {
      code, ok := NoRequest, true;
      if !(checkState == Content && lineOk) {
        var status := ParseLine();
        if status != LineOk { return true, NoRequest, true; }
      }
      if checkState == Content {
        code := ParseContent();
        ok := false;
      } else {
        code := HandleLine();
      }
      done := code != NoRequest;
    }

    /** The main state machine. */
    method ProcessRead() returns (code: Code)
      requires Valid()
      modifies this, readBuf
      ensures Valid()
      ensures (View(), code) == HttpRequest.ProcessRead(old(View())) && readIdx == old(readIdx)
    {
      var lineOk, done := true, false;
      code := NoRequest;
      ghost var all := HttpRequest.ProcessRead(View());
      while !done
        invariant Valid()
        invariant all == if done then (View(), code) else HttpRequest.ProcessFrom(View(), lineOk)
        decreases !done, readIdx - checkedIdx, lineOk
      {
        done, code, lineOk := OneTurn(lineOk);
      }
    }

    /** A readable event: what the socket has is read, in whatever pieces, and parsed. */
    method Segment(bytes: string, sizes: seq<nat>) returns (code: Code)
      requires Valid() && readIdx + |bytes| < READ_BUFFER_SIZE
      modifies this, readBuf
      ensures Valid() && readIdx == old(readIdx) + |bytes|
      ensures (View(), code) == HttpRequest.ProcessRead(Append(old(View()), bytes))
    {
      var ok := Read(bytes, sizes, false);
      assert bytes[..|bytes|] == bytes;
      code := ProcessRead();
    }

    /** A connection's life up to its last segment: each one is read, in whatever pieces,
    and parsed before the next arrives.  With HttpRequest.PrintThenParse this says what
    comes of a request. */
    method Converse(chunks: seq<string>, sizes: seq<nat>) returns (code: Code)
      requires Valid() && View() == Fresh("") && chunks != [] && |Concat(chunks)| < READ_BUFFER_SIZE
      modifies this, readBuf
      ensures Valid()
      ensures View() == HttpRequest.Feed(chunks) && code == HttpRequest.Answer(chunks)
    {
      code := NoRequest;
      for i := 0 to |chunks|
        invariant Valid() && View() == HttpRequest.Feed(chunks[..i]) && readIdx == |Concat(chunks[..i])|
        invariant i > 0 ==> code == HttpRequest.Answer(chunks[..i])
      {
        assert chunks[..i + 1][..i] == chunks[..i];
        PrefixFits(chunks, i + 1);
        code := Segment(chunks[i], sizes);
      }
      assert chunks[..|chunks|] == chunks;
    }
  }

  /** How many of `n` bytes fit behind the first `used` ones. */
  function Fitting(used: nat, n: nat): (k: nat)
    requires used <= READ_BUFFER_SIZE
    ensures k <= n && used + k <= READ_BUFFER_SIZE && (k < n ==> used + k == READ_BUFFER_SIZE)
  {
    if used + n <= READ_BUFFER_SIZE then n else READ_BUFFER_SIZE - used
  }

  lemma PrefixFits(chunks: seq<string>, k: nat)
    requires k <= |chunks|
    ensures |Concat(chunks[..k])| <= |Concat(chunks)|
  {
    var _ := HttpRequest.ConcatSplit(chunks, k);
  }
}
