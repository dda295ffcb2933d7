/** The parser's state and its resumable line scanner, over a buffer to which bytes
are appended between calls. */
module HttpLines {
  import opened HttpText

  datatype CheckState = RequestLine | Header | Content
  datatype LineStatus = LineOk | LineBad | LineOpen
  datatype Code = NoRequest | GetRequest | BadRequest

  /** The parser's fields.  `buf` is the filled part of the read buffer; `url` and
  `host` are positions in it, or -1 for a null pointer. */
  datatype Conn = Conn(
    buf: string, checked: nat, start: nat, state: CheckState,
    url: int, host: int, length: int, linger: bool)

  function Fresh(bytes: string): Conn {
    Conn(bytes, 0, 0, RequestLine, -1, -1, 0, false)
  }

  function Append(c: Conn, bytes: string): Conn {
    c.(buf := c.buf + bytes)
  }

  predicate InBounds(c: Conn) {
    c.start <= c.checked <= |c.buf|
  }

  // ---------- the line scanner ----------

  function FindBreak(s: string, i: nat): (k: nat)
    requires i <= |s|
    ensures i <= k <= |s|
    ensures forall j :: i <= j < k ==> !IsBreak(s[j])
    ensures k < |s| ==> IsBreak(s[k])
    decreases |s| - i
  {
    if i == |s| || IsBreak(s[i]) then i else FindBreak(s, i + 1)
  }

  /** The scan stops at a CR or LF, and passes over neither. */
  lemma StopsAtBreak(s: string, i: nat)
    requires i <= |s|
    ensures var k := FindBreak(s, i);
            && (forall j :: i <= j < k ==> s[j] != '\r' && s[j] != '\n')
            && (k < |s| ==> s[k] == '\r' || s[k] == '\n')
  {
  }

  function ParseLine(c: Conn): (r: (Conn, LineStatus))
    requires InBounds(c)
    ensures InBounds(r.0) && |r.0.buf| == |c.buf|
    ensures r.1.LineOk? ==> r.0.checked > c.checked
  {
    var i := FindBreak(c.buf, c.checked);
    if i == |c.buf| then (c.(checked := i), LineOpen)
    else if c.buf[i] == '\r' then
      if i + 1 == |c.buf| then (c.(checked := i), LineOpen)
      else if c.buf[i + 1] == '\n' then (c.(buf := c.buf[i := '\0'][i + 1 := '\0'], checked := i + 2), LineOk)
      else (c.(checked := i), LineBad)
    else if i > 1 && c.buf[i - 1] == '\r' then
      (c.(buf := c.buf[i - 1 := '\0'][i := '\0'], checked := i + 1), LineOk)
    else (c.(checked := i), LineBad)
  }

  /** Between calls: the scanned part of the current line holds no CR or LF, and the
  byte before the scan position is no CR. */
  ghost predicate Scanned(c: Conn) {
    && InBounds(c)
    && (forall j :: c.start <= j < c.checked ==> !IsBreak(c.buf[j]))
    && (c.checked > 0 ==> c.buf[c.checked - 1] != '\r')
  }

  lemma FindBreakIs(s: string, i: nat, k: nat)
    requires i <= k <= |s| && (forall j :: i <= j < k ==> !IsBreak(s[j])) && (k < |s| ==> IsBreak(s[k]))
    ensures FindBreak(s, i) == k
  {
  }

  /** The "LF preceded by CR" branch is dead code: at an LF the byte before is no CR. */
  lemma LfAfterCrIsDead(c: Conn)
    requires Scanned(c)
    ensures var i := FindBreak(c.buf, c.checked); 0 < i < |c.buf| && c.buf[i] == '\n' ==> c.buf[i - 1] != '\r'
  {
  }

  lemma ParseLineScanned(c: Conn)
    requires Scanned(c)
    ensures var (d, status) := ParseLine(c);
            Scanned(if status.LineOk? then d.(start := d.checked) else d)
  {
  }

  /** An accepted or rejected line does not depend on what arrives later. */
  lemma ParseLineAppend(c: Conn, t: string)
    requires Scanned(c) && !ParseLine(c).1.LineOpen?
    ensures ParseLine(Append(c, t)) == (Append(ParseLine(c).0, t), ParseLine(c).1)
  {
    var i := FindBreak(c.buf, c.checked);
    FindBreakIs(c.buf + t, c.checked, i);
    if c.buf[i] == '\r' && i + 1 < |c.buf| && c.buf[i + 1] == '\n' {
      assert (c.buf + t)[i := '\0'][i + 1 := '\0'] == c.buf[i := '\0'][i + 1 := '\0'] + t;
    }
  }

  /** An open line is taken up where it was left. */
  lemma ParseLineResume(c: Conn, t: string)
    requires Scanned(c) && ParseLine(c).1.LineOpen?
    ensures ParseLine(Append(ParseLine(c).0, t)) == ParseLine(Append(c, t))
  {
    var i := FindBreak(c.buf, c.checked);
    var k := FindBreak(c.buf + t, i);
    assert forall j :: c.checked <= j < i ==> (c.buf + t)[j] == c.buf[j];
    FindBreakIs(c.buf + t, c.checked, k);
  }

  /** A bad line stays bad, at the same position. */
  lemma LineBadIsSticky(c: Conn, t: string)
    requires Scanned(c) && ParseLine(c).1.LineBad?
    ensures ParseLine(Append(ParseLine(c).0, t)) == (Append(ParseLine(c).0, t), LineBad)
  {
    var i := FindBreak(c.buf, c.checked);
    FindBreakIs(c.buf + t, i, i);
    LfAfterCrIsDead(c);
  }

  // ---------- the scanner over a segmented stream ----------

  /** A scan result with one more line before the others. */
  function Longer(line: string, x: (Conn, seq<string>, LineStatus)): (Conn, seq<string>, LineStatus) {
    (x.0, [line] + x.1, x.2)
  }

  /** All lines that repeated calls accept, and the status that ends them. */
  function ScanLines(c: Conn): (r: (Conn, seq<string>, LineStatus))
    requires InBounds(c)
    ensures InBounds(r.0) && |r.0.buf| == |c.buf|
    decreases |c.buf| - c.checked
  {
    var (d, status) := ParseLine(c);
    if status.LineOk? && c.start + 2 <= d.checked then
      Longer(c.buf[c.start..d.checked - 2], ScanLines(d.(start := d.checked)))
    else (d, [], status)
  }

  /** The same told of the plain byte stream: lines end at CR LF, and the first CR or
  LF that is not part of such a pair, if anything follows it, is an error. */
  datatype Split = Split(lines: seq<string>, unfinished: nat, stop: nat, status: LineStatus)

  /** The split `r` with more lines before its own. */
  function Behind(lines: seq<string>, r: Split): Split {
    r.(lines := lines + r.lines)
  }

  function SplitFrom(s: string, p: nat): (r: Split)
    requires p <= |s|
    ensures r.unfinished <= r.stop <= |s|
    decreases |s| - p
  {
    var i := FindBreak(s, p);
    if i + 1 < |s| && s[i] == '\r' && s[i + 1] == '\n' then
      Behind([s[p..i]], SplitFrom(s, i + 2))
    else Split([], p, i, if i == |s| || (s[i] == '\r' && i + 1 == |s|) then LineOpen else LineBad)
  }

  /** The unread part of the buffer is the stream's own; the consumed part was overwritten. */
  ghost predicate Mirrors(c: Conn, s: string) {
    Scanned(c) && |c.buf| == |s| && forall j {:trigger SameAt(c.buf, s, j)} :: c.start <= j < |s| ==> SameAt(c.buf, s, j)
  }

  predicate SameAt(a: string, b: string, j: nat)
    requires j < |a| && j < |b|
  {
    a[j] == b[j]
  }

  lemma LineIsSplit(c: Conn, s: string)
    requires Mirrors(c, s)
    ensures var (d, status) := ParseLine(c);
            var i := FindBreak(s, c.start);
            && (status.LineOk? <==> i + 1 < |s| && s[i] == '\r' && s[i + 1] == '\n')
            && (status.LineOpen? <==> i == |s| || (s[i] == '\r' && i + 1 == |s|))
            && (status.LineOk? ==>
                  d.checked == i + 2 && Mirrors(d.(start := d.checked), s) && c.buf[c.start..i] == s[c.start..i])
            && (!status.LineOk? ==> d == c.(checked := i) && Mirrors(d, s))
  {
    BreakOfStream(c, s);
    LineStatusIs(c, s);
    LineMirrors(c, s);
  }

  lemma LineStatusIs(c: Conn, s: string)
    requires Mirrors(c, s)
    ensures var (d, status) := ParseLine(c);
            var i := FindBreak(s, c.start);
            && (status.LineOk? <==> i + 1 < |s| && s[i] == '\r' && s[i + 1] == '\n')
            && (status.LineOpen? <==> i == |s| || (s[i] == '\r' && i + 1 == |s|))
            && (if status.LineOk? then d.checked == i + 2 else d == c.(checked := i))
  {
    BreakOfStream(c, s);
    LfAfterCrIsDead(c);
    var i := FindBreak(s, c.start);
    assert i < |s| ==> SameAt(c.buf, s, i);
    assert i + 1 < |s| ==> SameAt(c.buf, s, i + 1);
  }

  lemma LineMirrors(c: Conn, s: string)
    requires Mirrors(c, s)
    ensures var (d, status) := ParseLine(c); Mirrors(if status.LineOk? then d.(start := d.checked) else d, s)
  {
    ParseLineScanned(c);
    LfAfterCrIsDead(c);
    var (d, status) := ParseLine(c);
    forall j | (if status.LineOk? then d.checked else c.start) <= j < |s| ensures SameAt(d.buf, s, j) {
      assert SameAt(c.buf, s, j);
    }
  }

  lemma BreakOfStream(c: Conn, s: string)
    requires Mirrors(c, s)
    ensures var i := FindBreak(c.buf, c.checked);
            FindBreak(s, c.start) == i && c.buf[c.start..i] == s[c.start..i]
  {
    forall j | c.start <= j < |s| ensures c.buf[j] == s[j] { assert SameAt(c.buf, s, j); }
    FindBreakIs(s, c.start, FindBreak(c.buf, c.checked));
  }

  lemma SplitStep(s: string, p: nat)
    requires p <= |s|
    ensures var i, r := FindBreak(s, p), SplitFrom(s, p);
            if i + 1 < |s| && s[i] == '\r' && s[i + 1] == '\n' then
              r == Behind([s[p..i]], SplitFrom(s, i + 2))
            else
              && r.lines == [] && r.unfinished == p && r.stop == i
              && r.status == if i == |s| || (s[i] == '\r' && i + 1 == |s|) then LineOpen else LineBad
  {
  }

  lemma BehindBoth(a: seq<string>, b: seq<string>, r: Split)
    ensures Behind(a, Behind(b, r)) == Behind(a + b, r) && Behind([], r) == r
  {
    assert a + (b + r.lines) == a + b + r.lines;
    assert [] + r.lines == r.lines;
  }

  /** What the scanner has done is what the split of the stream `s` says. */
  ghost predicate Agrees(x: (Conn, seq<string>, LineStatus), r: Split, s: string) {
    Mirrors(x.0, s) && x.1 == r.lines && x.2 == r.status && x.0.checked == r.stop && x.0.start == r.unfinished
  }

  lemma AgreesBehind(x: (Conn, seq<string>, LineStatus), r: Split, s: string, line: string)
    requires Agrees(x, r, s)
    ensures Agrees(Longer(line, x), Behind([line], r), s)
  {
  }

  lemma {:induction false} ScanIsSplit(c: Conn, s: string)
    requires Mirrors(c, s)
    ensures Agrees(ScanLines(c), SplitFrom(s, c.start), s)
    decreases |c.buf| - c.checked
  {
    LineIsSplit(c, s);
    SplitStep(s, c.start);
    var (d, status) := ParseLine(c);
    if status.LineOk? {
      var e := d.(start := d.checked);
      ScanIsSplit(e, s);
      AgreesBehind(ScanLines(e), SplitFrom(s, e.start), s, c.buf[c.start..d.checked - 2]);
    }
  }

  /** A finished line of a stream is the first line of every longer stream. */
  lemma SplitLonger(s: string, u: string, p: nat) returns (lines: seq<string>, q: nat)
    requires s <= u && p <= |s|
    ensures p <= q <= |s|
    ensures p == q ==> SplitFrom(s, p).lines == [] && SplitFrom(s, p).unfinished == p
    ensures p < q ==> SplitFrom(s, p) == Behind(lines, SplitFrom(s, q)) && SplitFrom(u, p) == Behind(lines, SplitFrom(u, q))
  {
    var i := FindBreak(s, p);
    lines, q := [], p;
    if i + 1 < |s| && s[i] == '\r' && s[i + 1] == '\n' {
      lines, q := [s[p..i]], i + 2;
      SameBreak(s, u, p, i);
    }
  }

  lemma SameBreak(s: string, u: string, p: nat, i: nat)
    requires s <= u && p <= i && i + 1 < |s| && i == FindBreak(s, p)
    ensures FindBreak(u, p) == i && u[p..i] == s[p..i] && u[i] == s[i] && u[i + 1] == s[i + 1]
  {
    FindBreakIs(u, p, i);
  }

  lemma Regroup(lines: seq<string>, r: Split, all: Split, rest: Split, more: Split, last: Split)
    requires r == Behind(lines, rest) && all == Behind(lines, more) && more == Behind(rest.lines, last)
    ensures all == Behind(r.lines, last) && r.unfinished == rest.unfinished
  {
    BehindBoth(lines, rest.lines, last);
  }

  lemma {:induction false} SplitResume(s: string, u: string, p: nat)
    requires s <= u && p <= |s|
    ensures SplitFrom(u, p) == Behind(SplitFrom(s, p).lines, SplitFrom(u, SplitFrom(s, p).unfinished))
    decreases |s| - p
  {
    var lines, q := SplitLonger(s, u, p);
    var r := SplitFrom(s, p);
    if p < q {
      SplitResume(s, u, q);
      var rest := SplitFrom(s, q);
      Regroup(lines, r, SplitFrom(u, p), rest, SplitFrom(u, q), SplitFrom(u, rest.unfinished));
    } else {
      BehindBoth([], [], SplitFrom(u, p));
    }
  }

  function Concat(chunks: seq<string>): string {
    if chunks == [] then "" else Concat(chunks[..|chunks| - 1]) + chunks[|chunks| - 1]
  }

  /** The scanner run once after each chunk: its state and all lines so far. */
  function FeedLines(chunks: seq<string>): (r: (Conn, seq<string>, LineStatus))
    ensures InBounds(r.0)
  {
    if chunks == [] then (Fresh(""), [], LineOpen)
    else
      var (c, before, _) := FeedLines(chunks[..|chunks| - 1]);
      var (d, lines, status) := ScanLines(Append(c, chunks[|chunks| - 1]));
      (d, before + lines, status)
  }

  lemma MirrorsMore(c: Conn, s: string, t: string)
    requires Mirrors(c, s)
    ensures Mirrors(Append(c, t), s + t)
  {
    forall j | c.start <= j < |s + t| ensures SameAt(c.buf + t, s + t, j) {
      if j < |s| { assert SameAt(c.buf, s, j); }
    }
  }

  /** However a byte stream is cut into segments, the lines accepted and the place of
  the first error are those of the whole stream. */
  lemma {:induction false} SegmentationIndependent(chunks: seq<string>)
    ensures var (c, lines, status) := FeedLines(chunks);
            var r := SplitFrom(Concat(chunks), 0);
            && lines == r.lines && status == r.status && c.checked == r.stop
            && Mirrors(c, Concat(chunks)) && c.start == r.unfinished
  {
    if chunks != [] {
      var init, t := chunks[..|chunks| - 1], chunks[|chunks| - 1];
      SegmentationIndependent(init);
      var c := FeedLines(init).0;
      MirrorsMore(c, Concat(init), t);
      ScanIsSplit(Append(c, t), Concat(init) + t);
      SplitResume(Concat(init), Concat(init) + t, 0);
    }
  }
}
