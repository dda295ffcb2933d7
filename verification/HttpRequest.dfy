/** The request-line and header state machine on top of the line scanner. */
module HttpRequest {
  import opened HttpText
  import opened HttpLines

  // ---------- one line ----------

  /** Where a request line is cut: the blank after the method, the blank after the
  target, and where the path starts. */
  datatype Cuts = NoCuts | Cuts(verb: nat, target: nat, path: nat)

  function CutRequestLine(text: string): (r: Cuts)
    ensures r.Cuts? ==> r.verb < r.path < r.target < |text| && text[r.path] == '/'
  {
    var k := FindBlank(text, 0);
    if k == |text| || !EqNoCase(text[..k], "GET") then NoCuts
    else
      var a := SkipBlank(text, k + 1);
      var v := FindBlank(text, a);
      if v == |text| then NoCuts
      else if !EqNoCase(text[SkipBlank(text, v + 1)..], "HTTP/1.1") then NoCuts
      else
        var path := if StartsNoCase(text[a..v], "http://") then FindChar(text[..v], '/', a + 7) else a;
        if path == v || text[path] != '/' then NoCuts else Cuts(k, v, path)
  }

  /** The value of a header field: what follows its name and any blanks. */
  function Value(text: string, name: string): string
    requires |name| <= |text|
  {
    text[SkipBlank(text, |name|)..]
  }

  predicate IsKeepAlive(text: string) {
    StartsNoCase(text, "Connection:") && EqNoCase(Value(text, "Connection:"), "keep-alive")
  }

  predicate IsLength(text: string) {
    !StartsNoCase(text, "Connection:") && StartsNoCase(text, "Content-Length:")
  }

  predicate IsHost(text: string) {
    !StartsNoCase(text, "Connection:") && !StartsNoCase(text, "Content-Length:") && StartsNoCase(text, "Host:")
  }

  /** Handles the line `text` that starts at `t`; the scanner has already moved past it. */
  function HandleText(c: Conn, t: nat, text: string): (r: (Conn, Code))
    requires InBounds(c) && t + |text| <= |c.buf|
    ensures InBounds(r.0) && |r.0.buf| == |c.buf| && r.0.checked == c.checked && r.0.start == c.start
    ensures c.state.RequestLine? && r.1.NoRequest? ==> r.0.state.Header?
  {
    match c.state
    case RequestLine =>
      var cuts := CutRequestLine(text);
      if cuts.NoCuts? then (c, BadRequest)
      else
        (c.(buf := c.buf[t + cuts.verb := '\0'][t + cuts.target := '\0'], url := t + cuts.path, state := Header),
         NoRequest)
    case Header =>
      if text == "" then
        if c.length != 0 then (c.(state := Content), NoRequest) else (c, GetRequest)
      else if IsKeepAlive(text) then (c.(linger := true), NoRequest)
      else if IsLength(text) then (c.(length := Atoi(Value(text, "Content-Length:"))), NoRequest)
      else if IsHost(text) then (c.(host := t + SkipBlank(text, 5)), NoRequest)
      else (c, NoRequest)
    case Content => (c, NoRequest)
  }

  function HandleLine(c: Conn, t: nat): (r: (Conn, Code))
    requires InBounds(c) && t <= |c.buf|
    ensures InBounds(r.0) && |r.0.buf| == |c.buf| && r.0.checked == c.checked && r.0.start == c.start
    ensures c.state.RequestLine? && r.1.NoRequest? ==> r.0.state.Header?
  {
    HandleText(c, t, CStr(c.buf, t))
  }

  // ---------- process_read ----------

  /** One line of the header part: scan it, move past it, handle it. */
  function OneLine(c: Conn): (r: (Conn, Code))
    requires InBounds(c) && ParseLine(c).1.LineOk?
    ensures InBounds(r.0) && |r.0.buf| == |c.buf| && r.0.checked > c.checked
  {
    var d := ParseLine(c).0;
    HandleLine(d.(start := d.checked), d.start)
  }

  /** What one turn of the main loop leads to; GetRequest means that do_request is
  reached with the current url. */
  datatype Turn = Done(c: Conn, code: Code) | Again(c: Conn, lineOk: bool)

  function ContentTurn(c: Conn): Turn {
    if |c.buf| >= c.length + c.checked then Done(c.(start := c.checked), GetRequest)
    else Again(c.(start := c.checked), false)
  }

  /** One turn; `lineOk` is the loop's line_status. */
  function OneTurn(c: Conn, lineOk: bool): (r: Turn)
    requires InBounds(c)
    ensures InBounds(r.c) && |r.c.buf| == |c.buf|
    ensures r.Again? ==> r.c.checked > c.checked || (r.c.checked == c.checked && c.state.Content? && lineOk && !r.lineOk)
  {
    if c.state.Content? && lineOk then ContentTurn(c)
    else
      var (d, status) := ParseLine(c);
      if !status.LineOk? then Done(d, NoRequest)
      else if d.state.Content? then ContentTurn(d)
      else
        var (e, code) := OneLine(c);
        if code.NoRequest? then Again(e, true) else Done(e, code)
  }

  function ProcessFrom(c: Conn, lineOk: bool): (r: (Conn, Code))
    requires InBounds(c)
    ensures InBounds(r.0) && |r.0.buf| == |c.buf|
    decreases |c.buf| - c.checked, lineOk
  {
    match OneTurn(c, lineOk)
    case Done(d, code) => (d, code)
    case Again(d, ok) => ProcessFrom(d, ok)
  }

  function ProcessRead(c: Conn): (r: (Conn, Code))
    requires InBounds(c)
    ensures InBounds(r.0) && |r.0.buf| == |c.buf|
  {
    ProcessFrom(c, true)
  }

  // ---------- resumption ----------

  /** An accepted line is followed by a NUL, so its text ends before the new start. */
  lemma TextEnds(c: Conn)
    requires Scanned(c) && ParseLine(c).1.LineOk?
    ensures var d := ParseLine(c).0; d.start == c.start && d.start + |CStr(d.buf, d.start)| < d.checked - 1
  {
    LfAfterCrIsDead(c);
    var d := ParseLine(c).0;
    assert d.buf[d.checked - 2] == '\0';
  }

  lemma HandleLineScanned(c: Conn, t: nat)
    requires Scanned(c) && c.start == c.checked && t < c.start && t + |CStr(c.buf, t)| < c.start - 1
    ensures Scanned(HandleLine(c, t).0)
  {
  }

  lemma HandleTextAppend(c: Conn, t: nat, text: string, bytes: string)
    requires InBounds(c) && t + |text| <= |c.buf|
    ensures HandleText(Append(c, bytes), t, text) ==
            (Append(HandleText(c, t, text).0, bytes), HandleText(c, t, text).1)
  {
    if c.state.RequestLine? && CutRequestLine(text).Cuts? {
      var i, j := t + CutRequestLine(text).verb, t + CutRequestLine(text).target;
      assert (c.buf + bytes)[i := '\0'][j := '\0'] == c.buf[i := '\0'][j := '\0'] + bytes;
    }
  }

  lemma HandleLineAppend(c: Conn, t: nat, bytes: string)
    requires InBounds(c) && t < c.start && t + |CStr(c.buf, t)| < c.start
    ensures HandleLine(Append(c, bytes), t) == (Append(HandleLine(c, t).0, bytes), HandleLine(c, t).1)
  {
    assert (c.buf + bytes)[..c.start] == c.buf[..c.start];
    CStrPrefix(c.buf, c.buf + bytes, t, c.start);
    HandleTextAppend(c, t, CStr(c.buf, t), bytes);
  }

  lemma {:induction false} ContentStays(c: Conn, lineOk: bool)
    requires InBounds(c) && c.state.Content?
    ensures ProcessFrom(c, lineOk).0.state.Content?
    decreases |c.buf| - c.checked, lineOk
  {
    match OneTurn(c, lineOk)
    case Done(_, _) =>
    case Again(d, ok) => ContentStays(d, ok);
  }

  lemma OneLineScanned(c: Conn)
    requires Scanned(c) && ParseLine(c).1.LineOk?
    ensures Scanned(OneLine(c).0)
  {
    TextEnds(c);
    ParseLineScanned(c);
    var d := ParseLine(c).0;
    HandleLineScanned(d.(start := d.checked), d.start);
  }

  lemma OneLineAppend(c: Conn, t: string)
    requires Scanned(c) && ParseLine(c).1.LineOk?
    ensures ParseLine(Append(c, t)).1.LineOk?
    ensures OneLine(Append(c, t)) == (Append(OneLine(c).0, t), OneLine(c).1)
  {
    TextEnds(c);
    ParseLineAppend(c, t);
    var d := ParseLine(c).0;
    HandleLineAppend(d.(start := d.checked), d.start, t);
  }

  lemma ProcessStep(c: Conn)
    requires InBounds(c) && !c.state.Content? && ParseLine(c).1.LineOk?
    ensures ProcessRead(c) == if OneLine(c).1.NoRequest? then ProcessRead(OneLine(c).0) else OneLine(c)
  {
  }

  /** The same line is handled in the same way, with or without more input behind it. */
  lemma StepBoth(c: Conn, t: string)
    requires Scanned(c) && !c.state.Content? && ParseLine(c).1.LineOk?
    ensures var (e, code) := OneLine(c);
            && Scanned(e)
            && ProcessRead(c) == (if code.NoRequest? then ProcessRead(e) else (e, code))
            && ProcessRead(Append(c, t)) == if code.NoRequest? then ProcessRead(Append(e, t)) else (Append(e, t), code)
  {
    OneLineScanned(c);
    OneLineAppend(c, t);
    ProcessStep(c);
    ProcessStep(Append(c, t));
  }

  lemma ProcessStops(c: Conn)
    requires InBounds(c) && !c.state.Content? && !ParseLine(c).1.LineOk?
    ensures ProcessRead(c) == (ParseLine(c).0, NoRequest)
  {
  }

  /** Fewer bytes than announced follow the scan position. */
  predicate Incomplete(c: Conn) {
    |c.buf| < c.length + c.checked
  }

  /** A body that is incomplete stays so until more is read: the loop only scans it for
  lines, which can move the scan position on but never back. */
  lemma {:induction false} StaysIncomplete(c: Conn, lineOk: bool)
    requires InBounds(c) && c.state.Content? && Incomplete(c)
    ensures var (d, code) := ProcessFrom(c, lineOk);
            && code.NoRequest? && c.checked <= d.checked && d.state.Content? && d.length == c.length
    decreases |c.buf| - c.checked, lineOk
  {
    TurnIncomplete(c, lineOk);
    match OneTurn(c, lineOk)
    case Done(_, _) =>
    case Again(d, ok) => StaysIncomplete(d, ok);
  }

  lemma TurnIncomplete(c: Conn, lineOk: bool)
    requires InBounds(c) && c.state.Content? && Incomplete(c)
    ensures var r := OneTurn(c, lineOk);
            && c.checked <= r.c.checked && r.c.state.Content? && r.c.length == c.length && Incomplete(r.c)
            && (if r.Done? then r.code.NoRequest? else r.c.start == r.c.checked)
  {
  }

  /** A final answer, once given, does not depend on what arrives later. */
  lemma {:induction false} ProcessAppend(c: Conn, t: string)
    requires Scanned(c) && !ProcessRead(c).1.NoRequest?
    ensures ProcessRead(Append(c, t)) == (Append(ProcessRead(c).0, t), ProcessRead(c).1)
    decreases |c.buf| - c.checked
  {
    if c.state.Content? {
      if Incomplete(c) { StaysIncomplete(c, true); }
      return;
    }
    if !ParseLine(c).1.LineOk? { ProcessStops(c); }
    StepBoth(c, t);
    if OneLine(c).1.NoRequest? { ProcessAppend(OneLine(c).0, t); }
  }

  lemma StopResume(c: Conn, t: string)
    requires Scanned(c) && !c.state.Content? && !ParseLine(c).1.LineOk?
    ensures Scanned(ParseLine(c).0)
    ensures ProcessRead(Append(ParseLine(c).0, t)) == ProcessRead(Append(c, t))
  {
    ParseLineScanned(c);
    if ParseLine(c).1.LineOpen? {
      ParseLineResume(c, t);
    } else {
      LineBadIsSticky(c, t);
      ParseLineAppend(c, t);
    }
    SameLine(Append(ParseLine(c).0, t), Append(c, t));
  }

  /** The loop sees its input only through the scanner. */
  lemma SameLine(a: Conn, b: Conn)
    requires InBounds(a) && InBounds(b) && !a.state.Content? && ParseLine(a) == ParseLine(b)
    ensures ProcessRead(a) == ProcessRead(b)
  {
    assert a.state == b.state;
    if ParseLine(a).1.LineOk? {
      SameTurn(a, b);
      ProcessStep(a);
      ProcessStep(b);
    } else {
      ProcessStops(a);
      ProcessStops(b);
    }
  }

  lemma SameTurn(a: Conn, b: Conn)
    requires InBounds(a) && InBounds(b) && ParseLine(a) == ParseLine(b) && ParseLine(a).1.LineOk?
    ensures OneLine(a) == OneLine(b)
  {
  }

  /** Resumption: stopping for more input and going on later is the same as having had
  all the input at once, whatever the bytes are and wherever they were cut. */
  lemma {:induction false} ProcessResume(c: Conn, t: string)
    requires Scanned(c) && !ProcessRead(c).0.state.Content? && ProcessRead(c).1.NoRequest?
    ensures Scanned(ProcessRead(c).0)
    ensures ProcessRead(Append(ProcessRead(c).0, t)) == ProcessRead(Append(c, t))
    decreases |c.buf| - c.checked
  {
    if c.state.Content? { ContentStays(c, true); }
    if ParseLine(c).1.LineOk? {
      StepBoth(c, t);
      ProcessResume(OneLine(c).0, t);
    } else {
      ProcessStops(c);
      StopResume(c, t);
    }
  }

  // ---------- print, then parse ----------

  predicate Plain(s: string) {
    forall i :: 0 <= i < |s| ==> s[i] != '\0' && !IsBreak(s[i])
  }

  predicate PlainHeader(h: string) {
    Plain(h) && h != "" && (IsLength(h) ==> Atoi(Value(h, "Content-Length:")) == 0)
  }

  function PrintHeaders(hs: seq<string>): string {
    if hs == [] then "\r\n" else hs[0] + "\r\n" + PrintHeaders(hs[1..])
  }

  predicate KeepAlive(hs: seq<string>) {
    exists h :: h in hs && IsKeepAlive(h)
  }

  /** At the start of a plain line that ends in CR LF, the scanner takes just that line. */
  lemma TakesLine(c: Conn, pre: string, line: string, rest: string)
    requires Scanned(c) && c.start == c.checked == |pre| && Plain(line)
    requires c.buf == pre + line + "\r\n" + rest
    ensures ParseLine(c) == (c.(buf := pre + line + "\0\0" + rest, checked := |pre| + |line| + 2), LineOk)
  {
    var i := |pre| + |line|;
    assert forall j :: |pre| <= j < i ==> c.buf[j] == line[j - |pre|];
    FindBreakIs(c.buf, c.checked, i);
    assert c.buf[i := '\0'][i + 1 := '\0'] == pre + line + "\0\0" + rest;
  }

  lemma LineText(pre: string, line: string, rest: string)
    requires Plain(line)
    ensures CStr(pre + line + "\0\0" + rest, |pre|) == line
  {
    CStrIs(pre + line + "\0\0" + rest, |pre|, line);
  }

  /** The body length that is announced after header `h`. */
  function LengthAfter(h: string, before: int): int {
    if IsLength(h) then Atoi(Value(h, "Content-Length:")) else before
  }

  /** A header field changes the linger flag and the body length if it asks to, and
  nothing else that the request depends on. */
  lemma ParsesHeader(c: Conn, pre: string, h: string, rest: string)
    requires Scanned(c) && c.start == c.checked == |pre| && c.state.Header?
    requires c.buf == pre + h + "\r\n" + rest && Plain(h) && h != ""
    ensures ParseLine(c).1.LineOk? && OneLine(c).1.NoRequest?
    ensures var e := OneLine(c).0;
            && Scanned(e) && e.start == e.checked == |pre + h + "\0\0"|
            && e.buf == pre + h + "\0\0" + rest
            && e.state.Header? && e.length == LengthAfter(h, c.length)
            && e.url == c.url && e.linger == (c.linger || IsKeepAlive(h))
            && e.host == if IsHost(h) then |pre| + SkipBlank(h, 5) else c.host
  {
    TakesLine(c, pre, h, rest);
    LineText(pre, h, rest);
    OneLineScanned(c);
  }

  lemma ParsesBlank(c: Conn, pre: string)
    requires Scanned(c) && c.start == c.checked == |pre| && c.state.Header? && c.length == 0
    requires c.buf == pre + "\r\n"
    ensures var (d, code) := ProcessRead(c);
            code.GetRequest? && d.state.Header? && d.url == c.url && d.checked == |d.buf| && d.linger == c.linger && pre <= d.buf
  {
    assert c.buf == pre + "" + "\r\n" + "";
    TakesLine(c, pre, "", "");
    LineText(pre, "", "");
    ProcessStep(c);
  }

  /** The header part of a request, up to and including the blank line. */
  lemma {:induction false} ParsesHeaders(c: Conn, pre: string, hs: seq<string>)
    requires Scanned(c) && c.start == c.checked == |pre| && c.state.Header? && c.length == 0
    requires c.buf == pre + PrintHeaders(hs) && forall h :: h in hs ==> PlainHeader(h)
    ensures var (d, code) := ProcessRead(c);
            && code.GetRequest? && d.state.Header? && d.url == c.url && d.checked == |d.buf|
            && d.linger == (c.linger || KeepAlive(hs)) && pre <= d.buf
    decreases hs
  {
    if hs == [] {
      ParsesBlank(c, pre);
    } else {
      var h, rest := hs[0], PrintHeaders(hs[1..]);
      HeaderBehind(pre, h, rest);
      KeepAliveStep(hs);
      assert PlainHeader(h);
      ParsesHeader(c, pre, h, rest);
      ProcessStep(c);
      ParsesHeaders(OneLine(c).0, pre + h + "\0\0", hs[1..]);
    }
  }

  lemma HeaderBehind(pre: string, h: string, rest: string)
    ensures pre + (h + "\r\n" + rest) == pre + h + "\r\n" + rest
    ensures pre <= pre + h + "\0\0"
  {
  }

  lemma KeepAliveStep(hs: seq<string>)
    requires hs != []
    ensures KeepAlive(hs) <==> IsKeepAlive(hs[0]) || KeepAlive(hs[1..])
  {
    assert hs == [hs[0]] + hs[1..];
  }

  /** A request target in origin form, or in absolute form with its authority. */
  datatype Target = Origin(path: string) | Absolute(authority: string, path: string)

  predicate NoBlank(s: string) {
    forall i :: 0 <= i < |s| ==> !IsBlank(s[i])
  }

  predicate PlainTarget(t: Target) {
    && Plain(t.path) && NoBlank(t.path) && t.path != "" && t.path[0] == '/'
    && (t.Absolute? ==> Plain(t.authority) && NoBlank(t.authority) && '/' !in t.authority)
  }

  function PrintTarget(t: Target): string {
    match t
    case Origin(path) => path
    case Absolute(authority, path) => "http://" + authority + path
  }

  function PrintLine(t: Target): string {
    "GET " + PrintTarget(t) + " HTTP/1.1"
  }

  function PrintRequest(t: Target, hs: seq<string>): string {
    PrintLine(t) + "\r\n" + PrintHeaders(hs)
  }

  lemma FindBlankIs(s: string, i: nat, k: nat)
    requires i <= k <= |s| && (forall j :: i <= j < k ==> !IsBlank(s[j])) && (k < |s| ==> IsBlank(s[k]))
    ensures FindBlank(s, i) == k
  {
  }

  lemma PathStart(t: Target, text: string)
    requires PlainTarget(t) && text == "GET " + PrintTarget(t)
    ensures StartsNoCase(text[4..], "http://") <==> t.Absolute?
    ensures t.Absolute? ==> FindChar(text, '/', 11) == 11 + |t.authority|
  {
    var u := PrintTarget(t);
    assert text[4..] == u;
    match t
    case Origin(path) => assert u[0] == '/';
    case Absolute(authority, path) =>
      assert u[..7] == "http://";
      assert forall j :: 0 <= j < |authority| ==> text[11 + j] == authority[j];
      assert text[11 + |authority|] == path[0];
  }

  lemma LineParts(t: Target)
    requires PlainTarget(t)
    ensures var u, text := PrintTarget(t), PrintLine(t);
            var v := 4 + |u|;
            && |text| == v + 9 && text[..3] == "GET" && text[v + 1..] == "HTTP/1.1" && text[3] == text[v] == ' '
            && text[4..v] == u && text[..v] == "GET " + u && forall j :: 4 <= j < v ==> !IsBlank(text[j])
  {
    var u, text := PrintTarget(t), PrintLine(t);
    assert NoBlank(u);
    assert forall j :: 4 <= j < 4 + |u| ==> text[j] == u[j - 4];
  }

  /** The printed request line is cut where it was put together. */
  lemma CutsPrintedLine(t: Target)
    requires PlainTarget(t)
    ensures var u := |PrintTarget(t)|;
            CutRequestLine(PrintLine(t)) == Cuts(3, 4 + u, 4 + u - |t.path|)
  {
    var text, v := PrintLine(t), 4 + |PrintTarget(t)|;
    LineParts(t);
    FindBlankIs(text, 0, 3);
    FindBlankIs(text, 4, v);
    PathStart(t, text[..v]);
    assert text[v - |t.path|] == '/';
  }

  /** The first line of a printed request, handled: what the header part starts from. */
  lemma ParsesFirstLine(t: Target, rest: string) returns (pre: string, a: nat, u: nat)
    requires PlainTarget(t)
    ensures var c := Fresh(PrintLine(t) + "\r\n" + rest);
            && ParseLine(c).1.LineOk? && OneLine(c).1.NoRequest?
            && var e := OneLine(c).0;
               && Scanned(e) && e.start == e.checked == |pre| && e.buf == pre + rest
               && e.state.Header? && e.length == 0 && !e.linger
               && e.url == a && a <= u < |pre| && pre[a..u] == t.path && pre[u] == '\0'
  {
    PrintedLine(t);
    u := 4 + |PrintTarget(t)|;
    a := u - |t.path|;
    pre := FirstLine(PrintLine(t), rest, u, t.path);
  }

  lemma PrintedLine(t: Target)
    requires PlainTarget(t)
    ensures var line, u := PrintLine(t), 4 + |PrintTarget(t)|;
            && Plain(line) && u < |line| && 4 <= u - |t.path| && line[u - |t.path|..u] == t.path
            && CutRequestLine(line) == Cuts(3, u, u - |t.path|)
  {
    CutsPrintedLine(t);
    PlainLine(t);
    PrintedPath(t);
  }

  lemma PrintedPath(t: Target)
    ensures var line, u := PrintLine(t), 4 + |PrintTarget(t)|;
            |t.path| <= |PrintTarget(t)| && u < |line| && line[u - |t.path|..u] == t.path
  {
    var pre := "GET " + if t.Absolute? then "http://" + t.authority else "";
    assert PrintLine(t) == pre + t.path + " HTTP/1.1";
  }

  lemma PlainLine(t: Target)
    requires PlainTarget(t)
    ensures Plain(PrintLine(t))
  {
    PlainWords();
    if t.Absolute? {
      PlainTogether("http://", t.authority);
      PlainTogether("http://" + t.authority, t.path);
    }
    PlainTogether("GET ", PrintTarget(t));
    PlainTogether("GET " + PrintTarget(t), " HTTP/1.1");
  }

  lemma PlainWords()
    ensures Plain("GET ") && Plain("http://") && Plain(" HTTP/1.1")
  {
  }

  lemma PlainTogether(a: string, b: string)
    requires Plain(a) && Plain(b)
    ensures Plain(a + b)
  {
  }

  lemma FirstLine(line: string, rest: string, u: nat, path: string) returns (pre: string)
    requires Plain(line) && u < |line| && 4 <= u - |path| && line[u - |path|..u] == path
    requires CutRequestLine(line) == Cuts(3, u, u - |path|)
    ensures var c := Fresh(line + "\r\n" + rest);
            && ParseLine(c).1.LineOk? && OneLine(c).1.NoRequest?
            && var e := OneLine(c).0;
               && Scanned(e) && e.start == e.checked == |pre| && e.buf == pre + rest
               && e.state.Header? && e.length == 0 && !e.linger
               && e.url == u - |path| && u < |pre| && pre[e.url..u] == path && pre[u] == '\0'
  {
    FirstLineIs(line, rest, u, u - |path|);
    FirstLineScanned(line, rest);
    pre := CutBuffer(line, rest, u, u - |path|);
    FirstLineParts(OneLine(Fresh(line + "\r\n" + rest)).0, line, rest, u, path, pre);
  }

  lemma FirstLineParts(e: Conn, line: string, rest: string, u: nat, path: string, pre: string)
    requires u < |line| && 4 <= u - |path| && line[u - |path|..u] == path
    requires e == Conn((line + "\0\0" + rest)[3 := '\0'][u := '\0'], |line| + 2, |line| + 2, Header,
                       u - |path|, -1, 0, false)
    requires (line + "\0\0" + rest)[3 := '\0'][u := '\0'] == pre + rest
    requires |pre| == |line| + 2 && pre[u - |path|..u] == line[u - |path|..u]
    ensures e.start == e.checked == |pre| && e.buf == pre + rest && e.state.Header? && e.length == 0 && !e.linger
    ensures e.url == u - |path| && u < |pre| && pre[e.url..u] == path
  {
  }

  lemma FirstLineScanned(line: string, rest: string)
    requires Plain(line)
    ensures var c := Fresh(line + "\r\n" + rest); ParseLine(c).1.LineOk? && Scanned(OneLine(c).0)
  {
    TakesFirstLine(line, rest);
    OneLineScanned(Fresh(line + "\r\n" + rest));
  }

  lemma FirstLineIs(line: string, rest: string, u: nat, a: nat)
    requires Plain(line) && CutRequestLine(line) == Cuts(3, u, a)
    ensures var c := Fresh(line + "\r\n" + rest);
            && ParseLine(c).1.LineOk?
            && OneLine(c) == (Conn((line + "\0\0" + rest)[3 := '\0'][u := '\0'], |line| + 2, |line| + 2, Header,
                                   a, -1, 0, false), NoRequest)
  {
    TakesFirstLine(line, rest);
    var n := |line| + 2;
    CutHandled(Conn(line + "\0\0" + rest, n, n, RequestLine, -1, -1, 0, false), line, u, a);
  }

  lemma TakesFirstLine(line: string, rest: string)
    requires Plain(line)
    ensures var buf := line + "\0\0" + rest;
            && ParseLine(Fresh(line + "\r\n" + rest)) == (Conn(buf, |line| + 2, 0, RequestLine, -1, -1, 0, false), LineOk)
            && CStr(buf, 0) == line
  {
    assert "" + line == line;
    TakesLine(Fresh(line + "\r\n" + rest), "", line, rest);
    LineText("", line, rest);
  }

  lemma CutHandled(c: Conn, line: string, u: nat, a: nat)
    requires InBounds(c) && c.state.RequestLine? && |line| <= |c.buf|
    requires CStr(c.buf, 0) == line && CutRequestLine(line) == Cuts(3, u, a)
    ensures HandleLine(c, 0) == (c.(buf := c.buf[3 := '\0'][u := '\0'], url := a, state := Header), NoRequest)
  {
  }

  lemma CutBuffer(line: string, rest: string, u: nat, a: nat) returns (pre: string)
    requires 4 <= a <= u < |line|
    ensures (line + "\0\0" + rest)[3 := '\0'][u := '\0'] == pre + rest
    ensures |pre| == |line| + 2 && pre[a..u] == line[a..u] && pre[u] == '\0'
  {
    pre := (line + "\0\0")[3 := '\0'][u := '\0'];
  }

  /** The whole request at once. */
  lemma ParsesPrinted(t: Target, hs: seq<string>)
    requires PlainTarget(t) && forall h :: h in hs ==> PlainHeader(h)
    ensures var (d, code) := ProcessRead(Fresh(PrintRequest(t, hs)));
            && code.GetRequest? && d.state.Header? && d.checked == |d.buf|
            && 0 <= d.url <= |d.buf| && CStr(d.buf, d.url) == t.path
            && d.linger == KeepAlive(hs)
  {
    var c := Fresh(PrintRequest(t, hs));
    var pre, a, u := ParsesFirstLine(t, PrintHeaders(hs));
    ProcessStep(c);
    ParsesRest(OneLine(c).0, pre, hs, t.path, a, u);
  }

  lemma ParsesRest(e: Conn, pre: string, hs: seq<string>, path: string, a: nat, u: nat)
    requires Scanned(e) && e.start == e.checked == |pre| && e.state.Header? && e.length == 0
    requires e.buf == pre + PrintHeaders(hs) && (forall h :: h in hs ==> PlainHeader(h)) && Plain(path)
    requires e.url == a && a <= u < |pre| && pre[a..u] == path && pre[u] == '\0'
    ensures var (d, code) := ProcessRead(e);
            && code.GetRequest? && d.state.Header? && d.checked == |d.buf|
            && d.url == e.url <= |d.buf| && CStr(d.buf, d.url) == path
            && d.linger == (e.linger || KeepAlive(hs))
  {
    ParsesHeaders(e, pre, hs);
    CStrInPrefix(pre, ProcessRead(e).0.buf, a, u);
  }

  lemma CStrInPrefix(pre: string, buf: string, a: nat, u: nat)
    requires pre <= buf && a <= u < |pre| && pre[u] == '\0' && Plain(pre[a..u])
    ensures CStr(buf, a) == pre[a..u]
  {
    assert buf[a..u] == pre[a..u];
    CStrIs(buf, a, pre[a..u]);
  }

  // ---------- which request lines are accepted ----------

  predicate NoBlanksIn(s: string, i: nat, j: nat) {
    forall m :: i <= m < j && m < |s| ==> s[m] != ' ' && s[m] != '\t'
  }

  predicate OnlyBlanksIn(s: string, i: nat, j: nat) {
    forall m :: i <= m < j && m < |s| ==> s[m] == ' ' || s[m] == '\t'
  }

  /** A request line: the word GET up to `k`, blanks up to `a`, the target up to `v`, blanks
  up to `w`, and the version.  The path of the target starts at `p`, at once or behind
  "http://" and an authority without a slash.  Letters may be of any case. */
  predicate IsGetLine(s: string, k: nat, a: nat, p: nat, v: nat, w: nat) {
    && k < a <= p < v < w <= |s|
    && EqNoCase(s[..k], "GET") && OnlyBlanksIn(s, k, a) && NoBlanksIn(s, a, v)
    && OnlyBlanksIn(s, v, w) && EqNoCase(s[w..], "HTTP/1.1")
    && s[p] == '/'
    && (p == a || (a + 7 <= p && EqNoCase(s[a..a + 7], "http://") && forall m :: a + 7 <= m < p ==> s[m] != '/'))
  }

  lemma SkipBlankIs(s: string, i: nat, k: nat)
    requires i <= k <= |s| && (forall j :: i <= j < k ==> IsBlank(s[j])) && (k < |s| ==> !IsBlank(s[k]))
    ensures SkipBlank(s, i) == k
  {
  }

  lemma FindCharIs(s: string, ch: char, i: nat, k: nat)
    requires i <= k < |s| && (forall j :: i <= j < k ==> s[j] != ch) && s[k] == ch
    ensures FindChar(s, ch, i) == k
  {
  }

  lemma NotBlank(s: string, word: string)
    requires EqNoCase(s, word) && NoBlank(word)
    ensures NoBlank(s)
  {
    forall i | 0 <= i < |s| ensures !IsBlank(s[i]) { assert Lower(s[i]) == Lower(word[i]); }
  }

  lemma GapsAt(s: string, k: nat, a: nat, p: nat, v: nat, w: nat)
    requires IsGetLine(s, k, a, p, v, w)
    ensures FindBlank(s, 0) == k && SkipBlank(s, k + 1) == a && FindBlank(s, a) == v && SkipBlank(s, v + 1) == w
  {
    NotBlank(s[..k], "GET");
    NotBlank(s[w..], "HTTP/1.1");
    assert forall m :: 0 <= m < k ==> s[m] == s[..k][m];
    assert s[w] == s[w..][0];
    FindBlankIs(s, 0, k);
    SkipBlankIs(s, k + 1, a);
    FindBlankIs(s, a, v);
    SkipBlankIs(s, v + 1, w);
  }

  lemma PathAt(s: string, a: nat, p: nat, v: nat)
    requires a <= p < v <= |s| && s[p] == '/'
    requires p == a || (a + 7 <= p && EqNoCase(s[a..a + 7], "http://") && forall m :: a + 7 <= m < p ==> s[m] != '/')
    ensures if StartsNoCase(s[a..v], "http://") then FindChar(s[..v], '/', a + 7) == p else p == a
  {
    if a == p {
      assert s[a..v][0] == '/';
    } else {
      assert s[a..v][..7] == s[a..a + 7];
      FindCharIs(s[..v], '/', a + 7, p);
    }
  }

  /** Request lines are cut at their gaps ... */
  lemma CutsGetLine(s: string, k: nat, a: nat, p: nat, v: nat, w: nat)
    requires IsGetLine(s, k, a, p, v, w)
    ensures CutRequestLine(s) == Cuts(k, v, p) && k == 3
  {
    GapsAt(s, k, a, p, v, w);
    PathAt(s, a, p, v);
  }

  /** ... and nothing else is cut. */
  lemma CutIsGetLine(s: string) returns (a: nat, w: nat)
    requires CutRequestLine(s).Cuts?
    ensures var c := CutRequestLine(s); IsGetLine(s, c.verb, a, c.path, c.target, w)
  {
    var k := FindBlank(s, 0);
    a := SkipBlank(s, k + 1);
    var v := FindBlank(s, a);
    w := SkipBlank(s, v + 1);
    GetLineFrom(s, k, a, CutRequestLine(s).path, v, w);
  }

  lemma GetLineFrom(s: string, k: nat, a: nat, p: nat, v: nat, w: nat)
    requires k < a <= p < v < w <= |s| && FindBlank(s, 0) == k && SkipBlank(s, k + 1) == a
    requires FindBlank(s, a) == v && SkipBlank(s, v + 1) == w
    requires EqNoCase(s[..k], "GET") && EqNoCase(s[w..], "HTTP/1.1") && s[p] == '/'
    requires if StartsNoCase(s[a..v], "http://") then p == FindChar(s[..v], '/', a + 7) else p == a
    ensures IsGetLine(s, k, a, p, v, w)
  {
    if StartsNoCase(s[a..v], "http://") { PrefixAt(s, a, v); }
  }

  lemma PrefixAt(s: string, a: nat, v: nat)
    requires a <= v <= |s| && StartsNoCase(s[a..v], "http://")
    ensures EqNoCase(s[a..a + 7], "http://") && forall m :: a + 7 <= m < FindChar(s[..v], '/', a + 7) ==> s[m] != '/'
  {
    assert s[a..v][..7] == s[a..a + 7];
    forall m | a + 7 <= m < FindChar(s[..v], '/', a + 7) ensures s[m] != '/' { assert s[m] == s[..v][m]; }
  }

  ghost predicate Acceptable(s: string) {
    exists k, a, p, v, w :: IsGetLine(s, k, a, p, v, w)
  }

  /** A plain first line is accepted exactly if it is a request line in this sense; any
  other is answered with BAD_REQUEST. */
  lemma RequestLineMeaning(line: string, rest: string)
    requires Plain(line)
    ensures var c := Fresh(line + "\r\n" + rest);
            && ParseLine(c).1.LineOk?
            && OneLine(c).1 == (if Acceptable(line) then NoRequest else BadRequest)
            && (!Acceptable(line) ==> ProcessRead(c).1.BadRequest?)
  {
    FirstLineCode(line, rest);
    ProcessStep(Fresh(line + "\r\n" + rest));
    if CutRequestLine(line).Cuts? {
      var a, w := CutIsGetLine(line);
    } else if Acceptable(line) {
      var k, a, p, v, w :| IsGetLine(line, k, a, p, v, w);
      CutsGetLine(line, k, a, p, v, w);
    }
  }

  lemma FirstLineCode(line: string, rest: string)
    requires Plain(line)
    ensures var c := Fresh(line + "\r\n" + rest);
            && ParseLine(c).1.LineOk?
            && OneLine(c).1 == if CutRequestLine(line).Cuts? then NoRequest else BadRequest
  {
    TakesFirstLine(line, rest);
  }

  /** The path of an accepted line is what do_request will see. */
  lemma RequestLinePath(line: string, rest: string, k: nat, a: nat, p: nat, v: nat, w: nat)
    requires Plain(line) && IsGetLine(line, k, a, p, v, w)
    ensures var c := Fresh(line + "\r\n" + rest);
            && ParseLine(c).1.LineOk? && OneLine(c).1.NoRequest?
            && var e := OneLine(c).0;
               e.state.Header? && e.url == p <= |e.buf| && CStr(e.buf, e.url) == line[p..v]
  {
    CutsGetLine(line, k, a, p, v, w);
    PlainSlice(line, p, v);
    LinePath(line, rest, v, line[p..v]);
  }

  lemma PlainSlice(s: string, i: nat, j: nat)
    requires Plain(s) && i <= j <= |s|
    ensures Plain(s[i..j])
  {
  }

  lemma LinePath(line: string, rest: string, u: nat, path: string)
    requires Plain(line) && u < |line| && 4 <= u - |path| && line[u - |path|..u] == path && Plain(path)
    requires CutRequestLine(line) == Cuts(3, u, u - |path|)
    ensures var c := Fresh(line + "\r\n" + rest);
            && ParseLine(c).1.LineOk? && OneLine(c).1.NoRequest?
            && var e := OneLine(c).0;
               e.state.Header? && e.url == u - |path| <= |e.buf| && CStr(e.buf, e.url) == path
  {
    var pre := FirstLine(line, rest, u, path);
    CStrInPrefix(pre, OneLine(Fresh(line + "\r\n" + rest)).0.buf, u - |path|, u);
  }

  // ---------- what a header field is ----------

  /** `h` is a field of that name, in any case: the name, blanks or none, and a value that
  does not begin with a blank and starts at `i`. */
  predicate IsField(h: string, name: string, i: nat) {
    && |name| <= i <= |h| && EqNoCase(h[..|name|], name) && OnlyBlanksIn(h, |name|, i) && NoBlanksIn(h, i, i + 1)
  }

  lemma FieldValue(h: string, name: string, i: nat)
    requires IsField(h, name, i)
    ensures StartsNoCase(h, name) && SkipBlank(h, |name|) == i && Value(h, name) == h[i..]
  {
    SkipBlankIs(h, |name|, i);
  }

  lemma FieldOf(h: string, name: string) returns (i: nat)
    requires StartsNoCase(h, name)
    ensures IsField(h, name, i)
  {
    i := SkipBlank(h, |name|);
  }

  /** The three names that the parser knows exclude each other. */
  lemma NamesApart(h: string)
    ensures !(StartsNoCase(h, "Connection:") && StartsNoCase(h, "Content-Length:"))
    ensures !(StartsNoCase(h, "Connection:") && StartsNoCase(h, "Host:"))
    ensures !(StartsNoCase(h, "Content-Length:") && StartsNoCase(h, "Host:"))
  {
    if StartsNoCase(h, "Connection:") { assert Lower(h[..11][3]) == 'n' && Lower(h[..11][0]) == 'c'; }
    if StartsNoCase(h, "Content-Length:") { assert Lower(h[..15][3]) == 't' && Lower(h[..15][0]) == 'c'; }
    if StartsNoCase(h, "Host:") { assert Lower(h[..5][0]) == 'h'; }
  }

  ghost predicate HasField(h: string, name: string) {
    exists i: nat :: IsField(h, name, i)
  }

  lemma HasFieldIff(h: string, name: string)
    ensures HasField(h, name) <==> StartsNoCase(h, name)
  {
    if StartsNoCase(h, name) { var i := FieldOf(h, name); }
  }

  /** A Connection line asks for keep-alive, in any case, or for nothing. */
  ghost predicate LingerSet(h: string, before: bool, after: bool) {
    && (forall i: nat :: IsField(h, "Connection:", i) ==> after == (before || EqNoCase(h[i..], "keep-alive")))
    && (!HasField(h, "Connection:") ==> after == before)
  }

  /** A Content-Length line gives the number that its value is. */
  ghost predicate LengthSet(h: string, before: int, after: int) {
    && (forall i: nat :: IsField(h, "Content-Length:", i) ==> after == Atoi(h[i..]))
    && (!HasField(h, "Content-Length:") ==> after == before)
  }

  lemma LingerMeaning(h: string, before: bool)
    ensures LingerSet(h, before, before || IsKeepAlive(h))
  {
    HasFieldIff(h, "Connection:");
    forall i: nat | IsField(h, "Connection:", i) ensures IsKeepAlive(h) <==> EqNoCase(h[i..], "keep-alive") {
      FieldValue(h, "Connection:", i);
    }
  }

  lemma LengthMeaning(h: string, before: int)
    ensures LengthSet(h, before, LengthAfter(h, before))
  {
    HasFieldIff(h, "Content-Length:");
    NamesApart(h);
    forall i: nat | IsField(h, "Content-Length:", i) ensures LengthAfter(h, before) == Atoi(h[i..]) {
      FieldValue(h, "Content-Length:", i);
    }
  }

  /** A Host line, and no other, gives a pointer to its value. */
  lemma HostMeaning(h: string)
    ensures IsHost(h) <==> HasField(h, "Host:")
  {
    HasFieldIff(h, "Host:");
    NamesApart(h);
  }

  lemma HostText(pre: string, h: string, rest: string, i: nat)
    requires Plain(h) && IsField(h, "Host:", i)
    ensures var buf := pre + h + "\0\0" + rest; CStr(buf, |pre| + SkipBlank(h, 5)) == h[i..]
  {
    FieldValue(h, "Host:", i);
    TextFrom(pre, h, rest, i);
  }

  lemma TextFrom(pre: string, h: string, rest: string, i: nat)
    requires Plain(h) && i <= |h|
    ensures CStr(pre + h + "\0\0" + rest, |pre| + i) == h[i..]
  {
    var buf := pre + h + "\0\0" + rest;
    assert buf[|pre| + i..|pre| + |h|] == h[i..];
    PlainSlice(h, i, |h|);
    assert h[i..|h|] == h[i..];
    CStrIs(buf, |pre| + i, h[i..]);
  }

  /** A header line changes exactly the field that it is about, and the parser goes on. */
  lemma HeaderMeaning(c: Conn, pre: string, h: string, rest: string)
    requires Scanned(c) && c.start == c.checked == |pre| && c.state.Header?
    requires c.buf == pre + h + "\r\n" + rest && Plain(h) && h != ""
    ensures ParseLine(c).1.LineOk? && OneLine(c).1.NoRequest?
    ensures OneLine(c).0.url == c.url && OneLine(c).0.state.Header?
    ensures LingerSet(h, c.linger, OneLine(c).0.linger) && LengthSet(h, c.length, OneLine(c).0.length)
  {
    ParsesHeader(c, pre, h, rest);
    LingerMeaning(h, c.linger);
    LengthMeaning(h, c.length);
  }

  lemma {:induction false} ContentAppend(c: Conn, t: string)
    requires Scanned(c) && ProcessRead(c).0.state.Content?
    ensures ProcessRead(Append(c, t)).0.state.Content?
    decreases |c.buf| - c.checked
  {
    if c.state.Content? {
      ContentStays(Append(c, t), true);
    } else {
      if !ParseLine(c).1.LineOk? { ProcessStops(c); }
      StepBoth(c, t);
      var (e, code) := OneLine(c);
      if code.NoRequest? { ContentAppend(e, t); }
    }
  }

  /** Every proper prefix of a printed request asks for more. */
  lemma PrefixIsOpen(t: Target, hs: seq<string>, p: string, tail: string)
    requires PlainTarget(t) && forall h :: h in hs ==> PlainHeader(h)
    requires p + tail == PrintRequest(t, hs) && tail != ""
    ensures ProcessRead(Fresh(p)).1.NoRequest? && !ProcessRead(Fresh(p)).0.state.Content?
  {
    ParsesPrinted(t, hs);
    var c := Fresh(p);
    assert Append(c, tail) == Fresh(PrintRequest(t, hs));
    if ProcessRead(c).0.state.Content? {
      ContentAppend(c, tail);
    } else if !ProcessRead(c).1.NoRequest? {
      ProcessAppend(c, tail);
    }
  }

  /** The parser run once after each chunk. */
  function Feed(chunks: seq<string>): (c: Conn)
    ensures InBounds(c)
  {
    if chunks == [] then Fresh("")
    else ProcessRead(Append(Feed(chunks[..|chunks| - 1]), chunks[|chunks| - 1])).0
  }

  /** The answer to the last chunk. */
  function Answer(chunks: seq<string>): Code
    requires chunks != []
  {
    ProcessRead(Append(Feed(chunks[..|chunks| - 1]), chunks[|chunks| - 1])).1
  }

  lemma Together(a: string, b: string, c: string)
    ensures a + (b + c) == a + b + c
  {
  }

  /** Until the last chunk, feeding in pieces is the same as parsing all there is. */
  lemma {:induction false} FeedIsOneShot(t: Target, hs: seq<string>, chunks: seq<string>, tail: string)
    requires PlainTarget(t) && forall h :: h in hs ==> PlainHeader(h)
    requires Concat(chunks) + tail == PrintRequest(t, hs) && tail != ""
    ensures Feed(chunks) == ProcessRead(Fresh(Concat(chunks))).0
    ensures chunks != [] ==> Answer(chunks).NoRequest?
  {
    if chunks != [] {
      var init, last := chunks[..|chunks| - 1], chunks[|chunks| - 1];
      Together(Concat(init), last, tail);
      FeedIsOneShot(t, hs, init, last + tail);
      PrefixIsOpen(t, hs, Concat(init), last + tail);
      ProcessResume(Fresh(Concat(init)), last);
      PrefixIsOpen(t, hs, Concat(chunks), tail);
    }
  }

  /** Print, then parse: a request without a body, cut into any segments, is answered
  with "not yet" until its last byte is there, and then reaches do_request with
  exactly the path that was printed and the linger flag that was asked for. */
  lemma PrintThenParse(t: Target, hs: seq<string>, chunks: seq<string>, last: string)
    requires PlainTarget(t) && forall h :: h in hs ==> PlainHeader(h)
    requires Concat(chunks) + last == PrintRequest(t, hs) && last != ""
    ensures forall k :: 0 < k <= |chunks| ==> Answer(chunks[..k]).NoRequest?
    ensures var d := Feed(chunks + [last]);
            && Answer(chunks + [last]).GetRequest?
            && 0 <= d.url <= |d.buf| && CStr(d.buf, d.url) == t.path
            && d.linger == KeepAlive(hs)
  {
    forall k | 0 < k <= |chunks| ensures Answer(chunks[..k]).NoRequest? {
      EarlyAnswer(t, hs, chunks, last, k);
    }
    assert (chunks + [last])[..|chunks|] == chunks;
    FeedIsOneShot(t, hs, chunks, last);
    PrefixIsOpen(t, hs, Concat(chunks), last);
    ProcessResume(Fresh(Concat(chunks)), last);
    ParsesPrinted(t, hs);
  }

  lemma EarlyAnswer(t: Target, hs: seq<string>, chunks: seq<string>, last: string, k: nat)
    requires PlainTarget(t) && forall h :: h in hs ==> PlainHeader(h)
    requires Concat(chunks) + last == PrintRequest(t, hs) && last != "" && 0 < k <= |chunks|
    ensures Answer(chunks[..k]).NoRequest?
  {
    var tail := ConcatSplit(chunks, k);
    Together(Concat(chunks[..k]), tail, last);
    FeedIsOneShot(t, hs, chunks[..k], tail + last);
  }

  lemma {:induction false} ConcatSplit(chunks: seq<string>, k: nat) returns (tail: string)
    requires k <= |chunks|
    ensures Concat(chunks) == Concat(chunks[..k]) + tail
    decreases chunks
  {
    if k == |chunks| {
      assert chunks[..k] == chunks;
      tail := "";
    } else {
      var init := chunks[..|chunks| - 1];
      tail := ConcatSplit(init, k);
      assert init[..k] == chunks[..k];
      tail := tail + chunks[|chunks| - 1];
    }
  }

  // ---------- request bodies ----------

  /** The body length that the headers announce: the last one counts. */
  function Announced(hs: seq<string>, before: int): int {
    if hs == [] then before else Announced(hs[1..], LengthAfter(hs[0], before))
  }

  /** Decimal digits, as a client prints its Content-Length. */
  function PrintNat(n: nat): string {
    (if n < 10 then "" else PrintNat(n / 10)) + ['0' + (n % 10) as char]
  }

  lemma {:induction false} DigitsMore(s: string, d: char, acc: int)
    requires IsDigit(d) && forall i :: 0 <= i < |s| ==> IsDigit(s[i])
    ensures Digits(s + [d], acc) == Digits(s, acc) * 10 + (d as int - '0' as int)
    decreases s
  {
    if s == "" {
      assert Digits([d], acc) == Digits("", acc * 10 + (d as int - '0' as int));
    } else {
      assert (s + [d])[1..] == s[1..] + [d];
      DigitsMore(s[1..], d, acc * 10 + (s[0] as int - '0' as int));
    }
  }

  lemma {:induction false} DigitsPrinted(n: nat)
    ensures PrintNat(n) != "" && (forall i :: 0 <= i < |PrintNat(n)| ==> IsDigit(PrintNat(n)[i]))
    ensures Digits(PrintNat(n), 0) == n
  {
    var d := '0' + (n % 10) as char;
    if n >= 10 {
      DigitsPrinted(n / 10);
      DigitsMore(PrintNat(n / 10), d, 0);
    } else {
      DigitsMore("", d, 0);
    }
  }

  function PrintLength(n: nat): string {
    "Content-Length: " + PrintNat(n)
  }

  /** Printing and parsing a body length. */
  lemma LengthRoundTrip(n: nat, before: int)
    ensures Plain(PrintLength(n)) && PrintLength(n) != "" && LengthAfter(PrintLength(n), before) == n
  {
    DigitsPrinted(n);
    var h, ds := PrintLength(n), PrintNat(n);
    assert forall i :: 16 <= i < |h| ==> IsDigit(h[i]) by {
      assert forall i :: 16 <= i < |h| ==> h[i] == ds[i - 16];
    }
    assert h[..15] == "Content-Length:" && h[..11] == "Content-Len" && h[15] == ' ';
    assert Lower("Content-Len"[2]) != Lower("Connection:"[2]) || Lower("Content-Len"[3]) != Lower("Connection:"[3]);
    assert h[16..] == ds;
    assert SkipBlank(h, 15) == SkipBlank(h, 16) == 16;
  }

  /** What atoi skips. */
  predicate IsSpace(ch: char) {
    ch == ' ' || 9 <= ch as int <= 13
  }

  /** Numbers are read through leading white space and a sign, up to the first other
  character. */
  lemma {:induction false} AtoiMeaning(space: string, sign: string, n: nat, rest: string)
    requires forall i :: 0 <= i < |space| ==> IsSpace(space[i])
    requires sign == "" || sign == "+" || sign == "-"
    requires rest == "" || !IsDigit(rest[0])
    ensures Atoi(space + (sign + (PrintNat(n) + rest))) == if sign == "-" then 0 - n else n
    decreases space
  {
    var s := sign + (PrintNat(n) + rest);
    DigitsPrinted(n);
    if space == "" {
      assert space + s == s;
      DigitsStop(PrintNat(n), rest, 0);
      if sign == "" {
        assert s == PrintNat(n) + rest && s[0] == PrintNat(n)[0];
      } else {
        assert s[1..] == PrintNat(n) + rest;
      }
    } else {
      assert (space + s)[1..] == space[1..] + s;
      AtoiMeaning(space[1..], sign, n, rest);
    }
  }

  /** Without a digit where it should be, there is no number. */
  lemma {:induction false} AtoiNone(space: string, sign: string, rest: string)
    requires forall i :: 0 <= i < |space| ==> IsSpace(space[i])
    requires sign == "+" || sign == "-" || (sign == "" && (rest == "" || (!IsSpace(rest[0]) && rest[0] !in "+-")))
    requires rest == "" || !IsDigit(rest[0])
    ensures Atoi(space + (sign + rest)) == 0
    decreases space
  {
    var s := sign + rest;
    if space == "" {
      assert space + s == s;
      assert sign != "" ==> s[1..] == rest;
    } else {
      assert (space + s)[1..] == space[1..] + s;
      AtoiNone(space[1..], sign, rest);
    }
  }

  lemma {:induction false} DigitsStop(ds: string, rest: string, acc: int)
    requires (forall i :: 0 <= i < |ds| ==> IsDigit(ds[i])) && (rest == "" || !IsDigit(rest[0]))
    ensures Digits(ds + rest, acc) == Digits(ds, acc)
    decreases ds
  {
    if ds == "" {
      assert ds + rest == rest;
    } else {
      assert (ds + rest)[1..] == ds[1..] + rest;
      DigitsStop(ds[1..], rest, acc * 10 + (ds[0] as int - '0' as int));
    }
  }

  lemma AfterBlank(c: Conn, pre: string, t: string) returns (e: Conn)
    requires Scanned(c) && c.start == c.checked == |pre| && c.state.Header? && c.length != 0
    requires c.buf == pre + "\r\n"
    ensures Scanned(e) && e.state.Content? && e.start == e.checked == |e.buf| && e.length == c.length
    ensures ProcessRead(c) == ProcessRead(e) && ProcessRead(Append(c, t)) == ProcessRead(Append(e, t))
  {
    assert c.buf == pre + "" + "\r\n" + "";
    TakesLine(c, pre, "", "");
    LineText(pre, "", "");
    StepBoth(c, t);
    e := OneLine(c).0;
  }

  lemma {:induction false} AfterHeaders(c: Conn, pre: string, hs: seq<string>, t: string) returns (e: Conn)
    requires Scanned(c) && c.start == c.checked == |pre| && c.state.Header?
    requires c.buf == pre + PrintHeaders(hs) && (forall h :: h in hs ==> Plain(h) && h != "")
    requires Announced(hs, c.length) != 0
    ensures Scanned(e) && e.state.Content? && e.start == e.checked == |e.buf| && e.length == Announced(hs, c.length)
    ensures ProcessRead(c) == ProcessRead(e) && ProcessRead(Append(c, t)) == ProcessRead(Append(e, t))
    decreases hs
  {
    if hs == [] {
      e := AfterBlank(c, pre, t);
    } else {
      var h, rest := hs[0], PrintHeaders(hs[1..]);
      HeaderBehind(pre, h, rest);
      ParsesHeader(c, pre, h, rest);
      StepBoth(c, t);
      e := AfterHeaders(OneLine(c).0, pre + h + "\0\0", hs[1..], t);
    }
  }

  /** Where the parser stands after a printed head that announces a body: at the body's
  first byte, in the content state; and it makes no difference whether the body's first
  bytes `p` came along with the head. */
  lemma ReachesBody(t: Target, hs: seq<string>, p: string)
    requires PlainTarget(t) && (forall h :: h in hs ==> Plain(h) && h != "") && Announced(hs, 0) > 0
    ensures var (c, code) := ProcessRead(Fresh(PrintRequest(t, hs)));
            && code.NoRequest? && Scanned(c) && c.state.Content? && c.checked == |c.buf| && c.length == Announced(hs, 0)
            && ProcessRead(Fresh(PrintRequest(t, hs) + p)) == ProcessRead(Append(c, p))
  {
    var c := Fresh(PrintRequest(t, hs));
    var pre, a, u := ParsesFirstLine(t, PrintHeaders(hs));
    StepBoth(c, p);
    var e := AfterHeaders(OneLine(c).0, pre, hs, p);
    WaitsAtOnce(e);
  }

  lemma WaitsAtOnce(c: Conn)
    requires InBounds(c) && c.state.Content? && c.start == c.checked == |c.buf| && c.length > 0
    ensures ProcessRead(c) == (c, NoRequest)
  {
    assert ParseLine(c) == (c, LineOpen);
    assert ProcessFrom(c, false) == (c, NoRequest);
  }

  /** The scanner does not get past the first byte of `p`: it is a CR or LF that does not
  begin a CR LF within `p`. */
  predicate Stuck(p: string) {
    p != "" && (p[0] == '\r' || p[0] == '\n') && !(|p| >= 2 && p[0] == '\r' && p[1] == '\n')
  }

  lemma ScanMoves(c: Conn, p: string)
    requires Scanned(c) && c.checked == |c.buf| && p != ""
    ensures ParseLine(Append(c, p).(start := c.checked)).0.checked == c.checked <==> Stuck(p)
  {
    var d := Append(c, p).(start := c.checked);
    assert d.buf[c.checked] == p[0] && (|p| > 1 ==> d.buf[c.checked + 1] == p[1]);
    LfAfterCrIsDead(d);
  }

  /** An incomplete body is scanned for lines, which moves the position that it will be
  measured from exactly if the scan gets past its first byte. */
  lemma WaitsForBody(c: Conn, p: string)
    requires Scanned(c) && c.state.Content? && c.checked == |c.buf| && |p| < c.length
    ensures var (d, code) := ProcessRead(Append(c, p));
            && code.NoRequest? && d.state.Content? && d.length == c.length && |d.buf| == |c.buf| + |p|
            && c.checked <= d.checked && (d.checked == c.checked <==> p == "" || Stuck(p))
  {
    var b := Append(c, p);
    StaysIncomplete(b, true);
    var d := b.(start := c.checked);
    assert ProcessRead(b) == ProcessFrom(d, false);
    if p == "" {
      assert d.buf == c.buf;
      WaitsAtOnce(d);
    } else {
      ScanMoves(c, p);
      AfterScan(d);
    }
  }

  lemma AfterScan(d: Conn)
    requires InBounds(d) && d.state.Content? && Incomplete(d)
    ensures ProcessFrom(d, false).0.checked == d.checked <==> ParseLine(d).0.checked == d.checked
  {
    TurnIncomplete(d, false);
    var r := OneTurn(d, false);
    assert r.c.checked == ParseLine(d).0.checked;
    if r.Again? { StaysIncomplete(r.c, r.lineOk); }
  }

  /** A body is recognised when its last byte arrives exactly if the scan has not moved on
  in it before: none of it came in an earlier read, or what came is stuck at its first
  byte.  In one read it is always recognised. */
  lemma BodyInTwoReads(c: Conn, p: string, q: string)
    requires Scanned(c) && c.state.Content? && c.checked == |c.buf| && q != "" && c.length == |p| + |q|
    ensures ProcessRead(Append(c, p + q)) == (Append(c, p + q).(start := c.checked), GetRequest)
    ensures ProcessRead(Append(c, p)).1.NoRequest?
    ensures ProcessRead(Append(ProcessRead(Append(c, p)).0, q)).1.GetRequest? <==> p == "" || Stuck(p)
  {
    WaitsForBody(c, p);
    var d := Append(ProcessRead(Append(c, p)).0, q);
    if Incomplete(d) { StaysIncomplete(d, true); }
  }

  /** The same for a whole printed request: the body is recognised in one read, and cut
  in two under that condition only. */
  lemma PrintedBodyInTwoReads(t: Target, hs: seq<string>, p: string, q: string)
    requires PlainTarget(t) && (forall h :: h in hs ==> Plain(h) && h != "") && q != "" && Announced(hs, 0) == |p| + |q|
    ensures var head := PrintRequest(t, hs);
            && ProcessRead(Fresh(head + (p + q))).1.GetRequest?
            && ProcessRead(Fresh(head + p)).1.NoRequest?
            && (ProcessRead(Append(ProcessRead(Fresh(head + p)).0, q)).1.GetRequest? <==> p == "" || Stuck(p))
  {
    ReachesBody(t, hs, p + q);
    ReachesBody(t, hs, p);
    BodyInTwoReads(ProcessRead(Fresh(PrintRequest(t, hs))).0, p, q);
  }

  /** A request with a body of two bytes whose second byte comes late: it is lost if the
  first is a letter, and found if the first is a newline. */
  lemma LateSecondByte(first: char)
    requires first == 'a' || first == '\n'
    ensures var head := PrintRequest(Origin("/"), [PrintLength(2)]);
            ProcessRead(Append(ProcessRead(Fresh(head + [first])).0, "b")).1.GetRequest? <==> first == '\n'
  {
    LengthRoundTrip(2, 0);
    var hs := [PrintLength(2)];
    assert Announced(hs, 0) == Announced([], LengthAfter(hs[0], 0)) == 2;
    PrintedBodyInTwoReads(Origin("/"), hs, [first], "b");
  }
}
