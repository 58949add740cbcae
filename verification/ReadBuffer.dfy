/** The read buffer of a `CJob`, the C strings in it, and what the parser makes of it. */
module ReadBuffer {
  import opened CString
  import opened CTypes
  import opened Framing
  import opened HttpSyntax
  import opened RequestMachine

  const READ_BUFFER_SIZE := 2048
  const FILENAME_LEN := 200
  const DOC_ROOT := "/mnt/hgfs/linux_study"

  /** What the file system says about a path. */
  datatype FileStatus = Missing | Unreadable | Directory | Regular

  /** The path `do_request` looks up: the document root and as much of the URL as fits. */
  function RealFile(url: string): (path: string)
    ensures |path| < FILENAME_LEN && DOC_ROOT <= path
  {
    var room := FILENAME_LEN - |DOC_ROOT| - 1;
    DOC_ROOT + if |url| <= room then url else url[..room]
  }

  /** The document root and the room behind it. */
  lemma RealFileExactly(url: string)
    ensures RealFile(url) == "/mnt/hgfs/linux_study" + if |url| <= 178 then url else url[..178]
  {
    DocRootLength();
  }

  lemma DocRootLength()
    ensures |DOC_ROOT| == 21
  {
  }

  function FileCode(s: FileStatus): HttpCode {
    match s
    case Missing => NO_RESOURCE
    case Unreadable => FORBIDDEN_REQUEST
    case Directory => BAD_REQUEST
    case Regular => FILE_REQUEST
  }

  /** The result code of an outcome, given the file system. */
  function OutcomeCode(o: Outcome, stat: string -> FileStatus): HttpCode {
    match o
    case NoRequest => NO_REQUEST
    case Malformed => BAD_REQUEST
    case Respond(url) => FileCode(stat(RealFile(url)))
  }

  /** A pointer into the buffer denotes a string that ends before the limit. */
  ghost predicate Denotes(b: string, p: Option<nat>, s: Option<string>, limit: nat) {
    && p.Some? == s.Some?
    && (p.Some? ==> IsCStr(b, p.value, s.value) && p.value + |s.value| < limit)
  }

  /** The C string at a position, as the library functions read it. */
  function CStrAt(b: string, p: nat): string
    requires p <= |b|
  {
    Cut(b[p..])
  }

  lemma CStrRead(b: string, p: nat, s: string)
    requires IsCStr(b, p, s)
    ensures CStrAt(b, p) == s
  {
    CStrValue(b, p, s);
  }

  /** Skipping the leading blanks of a C string. */
  lemma BlanksSkipped(b: string, p: nat, s: string)
    requires IsCStr(b, p, s)
    ensures LeadingBlanks(s) + |SkipBlanks(s)| == |s|
    ensures p + LeadingBlanks(s) < |b| && IsCStr(b, p + LeadingBlanks(s), SkipBlanks(s))
    ensures CStrAt(b, p + LeadingBlanks(s)) == SkipBlanks(s)
  {
    hide LeadingBlanks, CStrAt;
    CStrSuffix(b, p, s, LeadingBlanks(s));
    CStrRead(b, p + LeadingBlanks(s), SkipBlanks(s));
  }

  /** Ending a token at its blank: the token before, the rest behind. */
  lemma TokenEnded(b: string, p: nat, s: string, i: nat)
    requires IsCStr(b, p, s) && i < |s|
    ensures var b' := b[p + i := NUL];
            && IsCStr(b', p, s[..i]) && CStrAt(b', p) == s[..i]
            && IsCStr(b', p + i + 1, s[i + 1..]) && CStrAt(b', p + i + 1) == s[i + 1..]
  {
    CStrSplit(b, p, s, i);
    CStrRead(b[p + i := NUL], p, s[..i]);
    CStrRead(b[p + i := NUL], p + i + 1, s[i + 1..]);
  }

  /** The pointers `m_url`, `m_version` and `m_host`. */
  datatype Pointers = Pointers(url: Option<nat>, version: Option<nat>, host: Option<nat>)

  /** The three pointers denote the strings recorded for them. Before a request line is accepted the first
      two mean nothing. */
  ghost predicate TokensIn(b: string, p: Pointers, q: Request, limit: nat) {
    if q.state.RequestLineState? then p.host.None?
    else Denotes(b, p.url, q.url, limit) && Denotes(b, p.version, q.version, limit) && Denotes(b, p.host, q.host, limit)
  }

  /** The buffer holds what was received from the start of the current line on, no carriage return just
      before that, and zeros behind it. */
  ghost predicate Holds(b: string, m: Machine) {
    && |b| == READ_BUFFER_SIZE && m.Valid() && |m.input| <= |b|
    && (forall i :: m.start <= i < |m.input| ==> b[i] == m.input[i])
    && (forall i :: |m.input| <= i < |b| ==> b[i] == NUL)
    && (m.start > 0 ==> b[m.start - 1] != CR)
  }

  /** A buffer that changed only at or behind the limit keeps the tokens before it. */
  lemma TokensKept(b: string, b': string, p: Pointers, q: Request, limit: nat)
    requires TokensIn(b, p, q, limit) && |b| == |b'|
    requires forall i :: 0 <= i < limit && i < |b| ==> b'[i] == b[i]
    ensures TokensIn(b', p, q, limit)
  {
    if !q.state.RequestLineState? {
      if p.url.Some? { CStrFrame(b, b', p.url.value, q.url.value); }
      if p.version.Some? { CStrFrame(b, b', p.version.value, q.version.value); }
      if p.host.Some? { CStrFrame(b, b', p.host.value, q.host.value); }
    }
  }

  /** As long as reads append, a line feed has no carriage return before it that the scan passed over: the
      branch that repairs a line cut between the two is not taken. */
  lemma LateLineFeedUnreachable(b: string, m: Machine)
    requires Holds(b, m)
    ensures var k := LineEnd(b, m.checked, |m.input|);
            k < |m.input| ==> !LateLineFeed(b, k)
  {
    var k := LineEnd(b, m.checked, |m.input|);
    if m.start < k < |m.input| {
      if k > m.checked {
        assert b[m.checked..|m.input|][k - 1 - m.checked] == b[k - 1];
      } else {
        assert b[k - 1] == m.input[k - 1];
      }
    }
  }

  /** Scanning the buffer is scanning the input. */
  lemma ScanOfBuffer(b: string, m: Machine)
    requires Holds(b, m)
    ensures var k := LineEnd(b, m.checked, |m.input|);
            && k == m.ScanEnd()
            && Status(m.Pending()) ==
               if k == |m.input| || (b[k] == CR && k + 1 == |m.input|) then LINE_OPEN
               else if b[k] == CR && b[k + 1] == LF then LINE_OK
               else LINE_BAD
  {
    hide PlainLength;
    var p := m.Pending();
    assert p == b[m.checked..|m.input|];
    assert forall i :: 0 <= i < |p| ==> p[i] == b[m.checked + i];
  }

  /** Terminating a complete line leaves it readable as a C string, and the rest of the buffer as it was. */
  lemma LineTerminated(b: string, m: Machine)
    requires Holds(b, m) && Status(m.Pending()) == LINE_OK
    ensures var k := m.ScanEnd();
            var b' := b[k := NUL][k + 1 := NUL];
            && Holds(b', m.NextLine())
            && IsCStr(b', m.start, m.Line()) && m.start + |m.Line()| <= k
            && forall i :: 0 <= i < m.start ==> b'[i] == b[i]
  {
    hide PlainLength, Status, IsCStr, Cut;
    LineBehindHolds(b, m);
    LineReads(b[m.ScanEnd() := NUL][m.ScanEnd() + 1 := NUL], m);
  }

  lemma LineBehindHolds(b: string, m: Machine)
    requires Holds(b, m) && Status(m.Pending()) == LINE_OK
    ensures m.ScanEnd() + 1 < |b| && Holds(b[m.ScanEnd() := NUL][m.ScanEnd() + 1 := NUL], m.NextLine())
  {
    hide PlainLength, Status;
  }

  lemma LineReads(b: string, m: Machine)
    requires m.Valid() && |m.input| <= |b| && m.ScanEnd() < |b| && b[m.ScanEnd()] == NUL
    requires forall i :: m.start <= i < m.ScanEnd() ==> b[i] == m.input[i]
    ensures IsCStr(b, m.start, m.Line()) && m.start + |m.Line()| <= m.ScanEnd()
  {
    hide PlainLength;
    LineIsCut(m);
    var raw, line := m.input[m.start..m.ScanEnd()], m.Line();
    assert b[m.start..m.ScanEnd()] == raw;
    assert b[m.start..m.start + |line|] == raw[..|line|];
  }

  lemma LineIsCut(m: Machine)
    requires m.Valid()
    ensures var raw := m.input[m.start..m.ScanEnd()];
            m.Line() <= raw && NUL !in m.Line() && (|m.Line()| < |raw| ==> raw[|m.Line()|] == NUL)
  {
  }

  /** Where `parse_line` stops in a buffer, what it reports, and what it leaves there. */
  function LineEnd(b: string, checked: nat, read: nat): (k: nat)
    requires checked <= read <= |b|
    ensures checked <= k <= read
  {
    checked + PlainLength(b[checked..read])
  }

  /** The branch for a line feed whose carriage return was passed over before. */
  predicate LateLineFeed(b: string, k: nat)
    requires k < |b|
  {
    b[k] == LF && k > 1 && b[k - 1] == CR
  }

  /** A buffer with a chunk put behind the bytes it has, and with a chunk put over its start. */
  function Appended(b: string, read: nat, chunk: string): string
    requires read + |chunk| <= |b|
  {
    b[..read] + chunk + b[read + |chunk|..]
  }

  function Overlaid(b: string, chunk: string): string
    requires |chunk| <= |b|
  {
    chunk + b[|chunk|..]
  }

  /** The live callback appends, as the parser needs, exactly for the first read after `init` (or an empty one). */
  lemma LiveReadAppends(b: string, read: nat, chunk: string)
    requires read + |chunk| <= |b| && NUL !in chunk
    requires forall i :: read <= i < |b| ==> b[i] == NUL
    ensures Overlaid(b, chunk) == Appended(b, read, chunk) <==> read == 0 || chunk == ""
  {
    if read > 0 && chunk != "" {
      var i := read + |chunk| - 1;
      assert Overlaid(b, chunk)[i] == NUL;
      assert Appended(b, read, chunk)[i] == chunk[|chunk| - 1];
    } else {
      assert Overlaid(b, chunk) == Appended(b, read, chunk);
    }
  }

  /** The body starts where the scan stands. */
  lemma BodyStart(b: string, m: Machine, p: Pointers)
    requires Holds(b, m) && TokensIn(b, p, m.req, m.start)
    ensures TokensIn(b, p, m.req, m.checked)
    ensures Holds(b, m.(start := m.checked))
  {
  }

  /** Changing the request fields leaves the buffer in step. */
  lemma RequestReplaced(b: string, m: Machine, q: Request)
    requires Holds(b, m) && m.req.url.Some? && q.url == m.req.url
    ensures Holds(b, m.(req := q))
  {
  }

  lemma UrlReads(b: string, p: Pointers, q: Request, limit: nat)
    requires TokensIn(b, p, q, limit) && !q.state.RequestLineState? && q.url.Some?
    ensures p.url.Some? && p.url.value <= |b| && CStrAt(b, p.url.value) == q.url.value
  {
    CStrRead(b, p.url.value, q.url.value);
  }

  /** Nothing but the n bytes from p on has changed. */
  ghost predicate OnlyWithin(b: string, b': string, p: nat, n: nat) {
    |b'| == |b| && forall i :: 0 <= i < |b| && !(p <= i < p + n) ==> b'[i] == b[i]
  }

  lemma OnlyWithinBoth(b: string, b': string, b'': string, p: nat, n: nat, p': nat, n': nat)
    requires OnlyWithin(b, b', p, n) && OnlyWithin(b', b'', p', n') && p <= p' && p' + n' <= p + n
    ensures OnlyWithin(b, b'', p, n)
  {
  }

  lemma DenotesBefore(b: string, p: Option<nat>, s: Option<string>, limit: nat, limit': nat)
    requires Denotes(b, p, s, limit) && limit <= limit'
    ensures Denotes(b, p, s, limit')
  {
  }

  lemma DenotesNone(b: string, p: Option<nat>, limit: nat)
    ensures p.None? <==> Denotes(b, p, None, limit)
  {
  }

  /** Changes inside the lines already taken do not disturb what is still to be scanned. */
  lemma HeldWithin(b: string, b': string, m: Machine, q: Request, p: nat, len: nat)
    requires Holds(b, m) && OnlyWithin(b, b', p, len) && p + len < m.start
    requires q.state.RequestLineState? || q.url.Some?
    ensures Holds(b', m.(req := q))
  {
  }

  lemma BoundsOfCStr(b: string, p: nat, s: string)
    requires IsCStr(b, p, s)
    ensures p + |s| < |b|
  {
  }

  /** Dropping the scheme and the authority of an absolute-form target by moving the pointer. */
  lemma PathInTarget(b: string, p: nat, t: string)
    requires IsCStr(b, p, t) && HasPrefixNoCase(t, HTTP_SCHEME)
    ensures var k := FirstSlash(t[7..]);
            && IsCStr(b, p + 7, t[7..]) && CStrAt(b, p + 7) == t[7..]
            && IsCStr(b, p + 7 + k, t[7..][k..]) && CStrAt(b, p + 7 + k) == t[7..][k..]
  {
    hide FirstSlash, CStrAt, EqNoCase;
    var k := FirstSlash(t[7..]);
    CStrSuffix(b, p, t, 7);
    CStrRead(b, p + 7, t[7..]);
    CStrSuffix(b, p + 7, t[7..], k);
    CStrRead(b, p + 7 + k, t[7..][k..]);
  }

  lemma ScanStopped(b: string, m: Machine)
    requires Holds(b, m)
    ensures Holds(b, m.(checked := m.ScanEnd()))
  {
    ReceiveValid(m, "");
  }

  // ----- Any buffer -----

  /** What `parse_line` reports and leaves behind, for any buffer. */
  datatype Scan = Scan(status: LineStatus, checked: nat, buf: string)

  function ScanLine(b: string, checked: nat, read: nat): (s: Scan)
    requires checked <= read <= |b|
    ensures |s.buf| == |b| && checked <= s.checked <= read
    ensures s.status == LINE_OK ==> checked < s.checked && s.buf[s.checked - 1] == NUL
    ensures s.status != LINE_OK ==> s.buf == b
  {
    var k := LineEnd(b, checked, read);
    if k == read || (b[k] == CR && k + 1 == read) then Scan(LINE_OPEN, k, b)
    else if b[k] == CR && b[k + 1] == LF then Scan(LINE_OK, k + 2, b[k := NUL][k + 1 := NUL])
    else if LateLineFeed(b, k) then Scan(LINE_OK, k + 1, b[k - 1 := NUL][k := NUL])
    else Scan(LINE_BAD, k, b)
  }

  /** A machine and a buffer that agree in their sizes, though perhaps not in the bytes. */
  ghost predicate Fits(b: string, m: Machine) {
    && |b| == READ_BUFFER_SIZE && m.start <= m.checked <= |m.input| <= |b|
    && (forall i :: |m.input| <= i < |b| ==> b[i] == NUL)
    && (!m.req.state.RequestLineState? ==> m.req.url.Some?)
  }

  /** The pointers point in front of the current line, and are set when the strings are recorded. */
  ghost predicate PointersBehind(p: Pointers, q: Request, start: nat) {
    if q.state.RequestLineState? then p.host.None?
    else
      && p.url.Some? == q.url.Some? && p.version.Some? == q.version.Some? && p.host.Some? == q.host.Some?
      && (p.url.Some? ==> p.url.value < start)
      && (p.version.Some? ==> p.version.value < start)
      && (p.host.Some? ==> p.host.value < start)
  }

  /** The string that a pointer denotes in a buffer. */
  function Reread(b: string, p: Option<nat>): (s: Option<string>)
    ensures s.Some? ==> p.Some?
  {
    if p.Some? && p.value <= |b| then Some(CStrAt(b, p.value)) else None
  }

  /** The request with the strings as they now stand in the buffer. */
  function Current(b: string, q: Request, p: Pointers): Request {
    if q.state.RequestLineState? then q
    else q.(url := Reread(b, p.url), version := Reread(b, p.version), host := Reread(b, p.host))
  }

  /** The input as it now stands in the buffer, from the start of the current line on. */
  function InputNow(b: string, m: Machine): (s: string)
    requires m.start <= |m.input| <= |b|
    ensures |s| == |m.input|
  {
    m.input[..m.start] + b[m.start..|m.input|]
  }

  /** The machine after the scan completed a line, and the line. */
  function LineDone(b: string, m: Machine, p: Pointers): Machine
    requires m.start <= m.checked <= |m.input| <= |b|
  {
    var s := ScanLine(b, m.checked, |m.input|);
    Machine(Current(s.buf, m.req, p), InputNow(b, m), s.checked, s.checked)
  }

  function LineText(b: string, m: Machine): string
    requires m.start <= m.checked <= |m.input| <= |b|
  {
    CStrAt(ScanLine(b, m.checked, |m.input|).buf, m.start)
  }

  lemma CStrHere(b: string, p: nat, e: nat)
    requires p <= e < |b| && b[e] == NUL
    ensures IsCStr(b, p, CStrAt(b, p)) && p + |CStrAt(b, p)| <= e
  {
    var s := CStrAt(b, p);
    assert b[p..][e - p] == NUL;
    assert forall i :: 0 <= i < |s| ==> s[i] == b[p..][i] && s[i] in s;
    assert b[p..p + |s|] == b[p..][..|s|];
  }

  /** After a completed line everything agrees again, whatever the buffer held: the rest of the input, and
      the strings at the pointers, which end in front of the next line. */
  lemma LineDoneAgrees(b: string, m: Machine, p: Pointers)
    requires Fits(b, m) && PointersBehind(p, m.req, m.start) && ScanLine(b, m.checked, |m.input|).status == LINE_OK
    ensures var s := ScanLine(b, m.checked, |m.input|);
            && Holds(s.buf, LineDone(b, m, p))
            && TokensIn(s.buf, p, LineDone(b, m, p).req, s.checked)
            && IsCStr(s.buf, m.start, LineText(b, m)) && m.start + |LineText(b, m)| < s.checked
            && (var n := LineDone(b, m, p);
                && n.start == n.checked == s.checked && |n.input| == |m.input|
                && n.req == (if m.req.state.RequestLineState? then m.req
                             else m.req.(url := n.req.url, version := n.req.version, host := n.req.host)))
  {
    hide PlainLength, IsCStr, CStrAt, TokensIn, Current;
    var s := ScanLine(b, m.checked, |m.input|);
    CStrHere(s.buf, m.start, s.checked - 1);
    CurrentTokens(s.buf, p, m.req, m.start, s.checked);
  }

  /** The strings at the pointers, when a NUL stands just before the limit. */
  lemma CurrentTokens(b: string, p: Pointers, q: Request, start: nat, limit: nat)
    requires PointersBehind(p, q, start) && start < limit <= |b| && b[limit - 1] == NUL
    requires q.state.RequestLineState? || q.url.Some?
    ensures var r := Current(b, q, p);
            && TokensIn(b, p, r, limit) && (r.state.RequestLineState? || r.url.Some?)
            && r == (if q.state.RequestLineState? then q else q.(url := r.url, version := r.version, host := r.host))
  {
    hide IsCStr, CStrAt;
    if !q.state.RequestLineState? {
      if p.url.Some? { CStrHere(b, p.url.value, limit - 1); }
      if p.version.Some? { CStrHere(b, p.version.value, limit - 1); }
      if p.host.Some? { CStrHere(b, p.host.value, limit - 1); }
    }
  }

  /** Where the buffer already agrees with the machine, this is the machine's own next line. */
  lemma LineDoneIsNext(b: string, m: Machine, p: Pointers)
    requires Holds(b, m) && TokensIn(b, p, m.req, m.start)
    ensures Fits(b, m) && PointersBehind(p, m.req, m.start)
    ensures var s := ScanLine(b, m.checked, |m.input|);
            && s.status == Status(m.Pending())
            && (s.status != LINE_OK ==> s.checked == m.ScanEnd())
            && (s.status == LINE_OK ==>
                  && LineDone(b, m, p) == m.NextLine() && LineText(b, m) == m.Line()
                  && TokensIn(s.buf, p, m.req, m.start))
  {
    hide PlainLength, Status, Cut, IsCStr, CStrAt, Current;
    PointersAre(b, m, p);
    ScanOfBuffer(b, m);
    LateLineFeedUnreachable(b, m);
    var s := ScanLine(b, m.checked, |m.input|);
    if s.status == LINE_OK {
      LineTerminated(b, m);
      TokensKept(b, s.buf, p, m.req, m.start);
      CStrRead(s.buf, m.start, m.Line());
      CurrentIsRecorded(s.buf, p, m.req, m.start);
      InputIsNow(b, m);
    }
  }

  lemma PointersAre(b: string, m: Machine, p: Pointers)
    requires Holds(b, m) && TokensIn(b, p, m.req, m.start)
    ensures Fits(b, m) && PointersBehind(p, m.req, m.start)
  {
  }

  lemma InputIsNow(b: string, m: Machine)
    requires Holds(b, m)
    ensures InputNow(b, m) == m.input
  {
  }

  lemma CurrentIsRecorded(b: string, p: Pointers, q: Request, limit: nat)
    requires TokensIn(b, p, q, limit)
    ensures Current(b, q, p) == q
  {
    hide CStrAt;
    if !q.state.RequestLineState? {
      if p.url.Some? { CStrRead(b, p.url.value, q.url.value); }
      if p.version.Some? { CStrRead(b, p.version.value, q.version.value); }
      if p.host.Some? { CStrRead(b, p.host.value, q.host.value); }
    }
  }

  /** The buffer after the terminator of a body was written. Where that place is outside the buffer the
      source has no defined effect, and here nothing is written. */
  function Terminated(b: string, at: int): (b': string)
    ensures |b'| == |b|
  {
    if 0 <= at < |b| then b[at := NUL] else b
  }

  /** The URL that `do_request` reads after that. */
  function UrlAfterBody(b: string, at: int, p: Pointers): string {
    if p.url.Some? && p.url.value <= |b| then CStrAt(Terminated(b, at), p.url.value) else ""
  }

  /** The loop of `process_read` on any buffer. Up to the first completed line the bytes are taken from the
      buffer; from there on the machine goes on as ever. */
  ghost function BufferLoop(b: string, m: Machine, p: Pointers, lineOk: bool): (Machine, Outcome)
    requires Fits(b, m) && PointersBehind(p, m.req, m.start)
    decreases lineOk
  {
    if m.req.state.ContentState? && lineOk then
      if m.BodyComplete() then
        (m.(start := m.checked), Respond(UrlAfterBody(b, m.start + m.req.contentLength, p)))
      else BufferLoop(b, m.(start := m.checked), p, false)
    else
      var s := ScanLine(b, m.checked, |m.input|);
      if s.status != LINE_OK then (m.(checked := s.checked), NoRequest)
      else
        LineDoneAgrees(b, m, p);
        var n := LineDone(b, m, p);
        if m.req.state.ContentState? then
          if n.BodyComplete() then (n, Respond(UrlAfterBody(s.buf, m.start + m.req.contentLength, p))) else Loop(n, false)
        else
          match OnLine(n, LineText(b, m))
          case Stop(k, o) => (k, o)
          case Go(k, ok) => Loop(k, ok)
  }

  /** One call of `process_read` on any buffer. */
  ghost function ProcessBuffer(b: string, m: Machine, p: Pointers): (Machine, Outcome)
    requires Fits(b, m) && PointersBehind(p, m.req, m.start)
  {
    BufferLoop(b, m, p, true)
  }

  lemma UrlBeforeBody(b: string, at: int, p: Pointers, q: Request, limit: nat)
    requires TokensIn(b, p, q, limit) && !q.state.RequestLineState? && q.url.Some? && limit <= at
    ensures UrlAfterBody(b, at, p) == q.url.value
  {
    hide CStrAt;
    TokensKept(b, Terminated(b, at), p, q, limit);
    UrlReads(Terminated(b, at), p, q, limit);
  }

  /** Where the buffer agrees with the machine, a turn with a scan is the machine's own. */
  lemma ScanTurnIsTake(b: string, m: Machine, p: Pointers, lineOk: bool)
    requires Holds(b, m) && TokensIn(b, p, m.req, m.start) && !(m.req.state.ContentState? && lineOk)
    requires m.req.state.ContentState? ==> m.req.contentLength >= 0
    ensures Fits(b, m) && PointersBehind(p, m.req, m.start) && BufferLoop(b, m, p, lineOk) == Loop(m, lineOk)
  {
    hide PlainLength, Status, CStrAt, UrlAfterBody, LineDone, LineText, IsCStr, Loop, OnLine, ScanLine, TokensIn, Denotes,
         BufferLoop, Holds;
    Agreeing(b, m);
    LineDoneIsNext(b, m, p);
    LoopTurn(m, lineOk);
    BufferTurn(b, m, p, lineOk);
    if Status(m.Pending()) == LINE_OK && m.req.state.ContentState? {
      ContentTurn(m.NextLine(), m.Line());
      UrlBeforeBody(ScanLine(b, m.checked, |m.input|).buf, m.start + m.req.contentLength, p, m.req, m.start);
    }
  }

  /** Where the buffer agrees with the machine, this is the machine's own loop. */
  lemma BufferLoopIsLoop(b: string, m: Machine, p: Pointers, lineOk: bool)
    requires Holds(b, m) && TokensIn(b, p, m.req, m.start)
    requires m.req.state.ContentState? ==> m.req.contentLength >= 0
    ensures Fits(b, m) && PointersBehind(p, m.req, m.start) && BufferLoop(b, m, p, lineOk) == Loop(m, lineOk)
  {
    hide PlainLength, Status, UrlAfterBody, Loop, OnLine, ScanLine, TokensIn, Denotes, BufferLoop, Holds;
    Agreeing(b, m);
    PointersAre(b, m, p);
    if m.req.state.ContentState? && lineOk {
      var n := m.(start := m.checked);
      LoopTurn(m, true);
      BufferTurn(b, m, p, true);
      ContentTurn(n, "");
      UrlBeforeBody(b, m.start + m.req.contentLength, p, m.req, m.start);
      BodyStart(b, m, p);
      ScanTurnIsTake(b, n, p, false);
    } else {
      ScanTurnIsTake(b, m, p, lineOk);
    }
  }

  lemma Agreeing(b: string, m: Machine)
    requires Holds(b, m)
    ensures m.Valid()
  {
  }

  lemma ContentTurn(n: Machine, line: string)
    requires n.Valid() && n.req.state.ContentState?
    ensures OnLine(n, line) == if n.BodyComplete() then Stop(n, Respond(n.req.url.value)) else Go(n, false)
  {
  }

  /** The URL at position p that a call reads which ends in the state of m. */
  function UrlRead(m: Machine, url: string, p: nat): string {
    var at := m.checked + m.req.contentLength;
    if m.req.state.ContentState? && m.req.contentLength < 0 && p <= at < p + |url| then url[..at - p] else url
  }

  lemma OverlaidFits(b: string, m: Machine, chunk: string, p: Pointers)
    requires Fits(b, m) && |m.input| + |chunk| <= READ_BUFFER_SIZE
    ensures Fits(Overlaid(b, chunk), m.Receive(chunk))
    ensures Holds(b, m) && TokensIn(b, p, m.req, m.start) && (|m.input| == 0 || chunk == "") ==>
              Holds(Overlaid(b, chunk), m.Receive(chunk)) && TokensIn(Overlaid(b, chunk), p, m.req, m.start)
  {
    var b' := Overlaid(b, chunk);
    assert forall i :: |chunk| <= i < |b| ==> b'[i] == b[i];
    if chunk == "" {
      assert b' == b;
      assert m.input + "" == m.input;
    }
  }

  /** The path buffer after the two copies: a C string, though the second copy need not end with a NUL. */
  lemma PathIs(f: string, b: string, p: nat, u: string)
    requires |f| == FILENAME_LEN && f[FILENAME_LEN - 1] == NUL && p <= |b| && u == CStrAt(b, p)
    requires forall i :: 0 <= i < |DOC_ROOT| ==> f[i] == DOC_ROOT[i]
    requires forall i :: |DOC_ROOT| <= i < FILENAME_LEN - 1 ==> f[i] == if i - |DOC_ROOT| < |u| then u[i - |DOC_ROOT|] else NUL
    ensures CStrAt(f, 0) == RealFile(CStrAt(b, p))
  {
    var path := RealFile(u);
    assert NUL !in DOC_ROOT;
    assert f[|path|] == NUL;
    assert forall i :: 0 <= i < |path| ==> f[i] == path[i];
    assert f[0..|path|] == path;
    CStrRead(f, 0, path);
  }

  /** The loop on any buffer, one turn at a time. */
  lemma BufferTurn(b: string, m: Machine, p: Pointers, lineOk: bool)
    requires Fits(b, m) && PointersBehind(p, m.req, m.start)
    ensures var q := m.req;
            if q.state.ContentState? && lineOk then
              var n := m.(start := m.checked);
              && Fits(b, n) && PointersBehind(p, n.req, n.start)
              && BufferLoop(b, m, p, lineOk) ==
                 if n.BodyComplete() then (n, Respond(UrlAfterBody(b, m.start + q.contentLength, p))) else BufferLoop(b, n, p, false)
            else
              var s := ScanLine(b, m.checked, |m.input|);
              var n := LineDone(b, m, p);
              if s.status != LINE_OK then BufferLoop(b, m, p, lineOk) == (m.(checked := s.checked), NoRequest)
              else
                && n.Valid() && Holds(s.buf, n) && TokensIn(s.buf, p, n.req, n.start)
                && n.req.state == q.state && n.req.contentLength == q.contentLength
                && m.checked < n.checked == n.start && |n.input| == |m.input|
                && (if q.state.ContentState? then
                      BufferLoop(b, m, p, lineOk) ==
                      if n.BodyComplete() then (n, Respond(UrlAfterBody(s.buf, m.start + q.contentLength, p)))
                      else Loop(n, false)
                    else
                      var t := OnLine(n, LineText(b, m));
                      BufferLoop(b, m, p, lineOk) ==
                      if t.Stop? then (t.m, t.outcome) else Loop(t.m, t.lineOk))
  {
    hide CStrAt, IsCStr, Loop, OnLine, LineText, UrlAfterBody, ScanLine, Holds, TokensIn;
    if !(m.req.state.ContentState? && lineOk) && ScanLine(b, m.checked, |m.input|).status == LINE_OK {
      LineDoneAgrees(b, m, p);
    }
  }

  /** A body with a negative length is complete at once. */
  lemma NegativeCompletes(m: Machine)
    requires m.req.contentLength < 0 && m.checked <= |m.input| <= READ_BUFFER_SIZE
    ensures m.BodyComplete()
  {
  }

  lemma NegativeBody(m: Machine)
    requires m.Valid() && m.req.state.ContentState? && m.req.contentLength < 0 && m.start == m.checked
    requires |m.input| <= READ_BUFFER_SIZE
    ensures Loop(m, true) == (m, Respond(m.req.url.value))
  {
    hide PlainLength, Status;
    NegativeCompletes(m);
  }

  lemma UrlWhole(m: Machine, url: string, p: nat)
    requires !m.req.state.ContentState? || m.req.contentLength >= 0
    ensures UrlRead(m, url, p) == url
  {
  }

  /** A terminator written in front of the body cuts the URL if it falls into it. */
  lemma UrlCut(b: string, m: Machine, p: Pointers)
    requires TokensIn(b, p, m.req, m.checked) && !m.req.state.RequestLineState? && m.req.url.Some? && m.checked <= |b|
    requires m.req.state.ContentState? && m.req.contentLength < 0
    ensures p.url.Some? && UrlAfterBody(b, m.checked + m.req.contentLength, p) == UrlRead(m, m.req.url.value, p.url.value)
  {
    hide CStrAt;
    var at, u, s := m.checked + m.req.contentLength, p.url.value, m.req.url.value;
    if u <= at < u + |s| {
      CStrSplit(b, u, s, at - u);
      CStrRead(b[at := NUL], u, s[..at - u]);
    } else {
      if at >= 0 {
        CStrFrame(b, Terminated(b, at), u, s);
      }
      CStrRead(Terminated(b, at), u, s);
    }
  }

  /** The loop is on its way to a result. A call that has itself come to a body with a negative length ends
      there; entered says that the call did not start in a body. */
  ghost predicate Towards(b: string, m: Machine, p: Pointers, lineOk: bool, target: (Machine, Outcome), entered: bool) {
    && Fits(b, m) && PointersBehind(p, m.req, m.start)
    && (!entered ==> m.req.state.ContentState?)
    && (if entered && m.req.state.ContentState? && m.req.contentLength < 0 then
          && lineOk && m.start == m.checked && Holds(b, m) && TokensIn(b, p, m.req, m.start)
          && target == (m, Respond(m.req.url.value))
        else BufferLoop(b, m, p, lineOk) == target)
  }

  /** What `do_request` reads, given the result. */
  ghost predicate Tells(target: (Machine, Outcome), url: string, p: Pointers, entered: bool) {
    && target.1.Respond? && p.url.Some?
    && url == if entered then UrlRead(target.0, target.1.url, p.url.value) else target.1.url
  }

  lemma ScanStops(b: string, m: Machine, p: Pointers, lineOk: bool, target: (Machine, Outcome), entered: bool)
    requires Towards(b, m, p, lineOk, target, entered) && !(m.req.state.ContentState? && lineOk)
    ensures ScanLine(b, m.checked, |m.input|).status != LINE_OK ==>
              target == (m.(checked := ScanLine(b, m.checked, |m.input|).checked), NoRequest)
  {
    hide ScanLine, BufferLoop;
    BufferTurn(b, m, p, lineOk);
  }

  lemma TestTurn(b: string, m: Machine, p: Pointers, target: (Machine, Outcome), entered: bool)
    requires Towards(b, m, p, true, target, entered) && m.req.state.ContentState?
    ensures var n := m.(start := m.checked);
            if n.BodyComplete() then target.0 == n && Tells(target, UrlAfterBody(b, m.start + m.req.contentLength, p), p, entered)
            else Towards(b, n, p, false, target, entered)
  {
    hide ScanLine, BufferLoop, Holds, TokensIn, UrlAfterBody, UrlRead;
    BufferTurn(b, m, p, true);
    if m.req.contentLength < 0 {
      NegativeCompletes(m);
      if entered {
        UrlCut(b, m, p);
      }
    } else if entered && m.BodyComplete() {
      UrlWhole(m.(start := m.checked), target.1.url, p.url.value);
    }
  }

  lemma BodyLineTurn(b: string, m: Machine, p: Pointers, target: (Machine, Outcome), entered: bool)
    requires Towards(b, m, p, false, target, entered) && m.req.state.ContentState?
    requires ScanLine(b, m.checked, |m.input|).status == LINE_OK
    ensures var s, n := ScanLine(b, m.checked, |m.input|), LineDone(b, m, p);
            if n.BodyComplete() then target.0 == n && Tells(target, UrlAfterBody(s.buf, m.start + m.req.contentLength, p), p, entered)
            else Towards(s.buf, n, p, false, target, entered)
  {
    hide ScanLine, BufferLoop, Holds, TokensIn, UrlAfterBody, UrlRead, LineDone, Loop;
    BufferTurn(b, m, p, false);
    var s, n := ScanLine(b, m.checked, |m.input|), LineDone(b, m, p);
    if n.BodyComplete() {
      if entered {
        UrlWhole(n, target.1.url, p.url.value);
      }
    } else {
      if n.req.contentLength < 0 {
        NegativeCompletes(n);
      }
      BufferLoopIsLoop(s.buf, n, p, false);
    }
  }

  lemma LineTurn(b: string, m: Machine, p: Pointers, lineOk: bool, target: (Machine, Outcome))
    requires Towards(b, m, p, lineOk, target, true) && !m.req.state.ContentState?
    requires ScanLine(b, m.checked, |m.input|).status == LINE_OK
    ensures LineDone(b, m, p).Valid()
    ensures var t := OnLine(LineDone(b, m, p), LineText(b, m)); t.Stop? ==> target == (t.m, t.outcome)
    ensures var t := OnLine(LineDone(b, m, p), LineText(b, m)); t.Go? ==> Loop(t.m, t.lineOk) == target && t.m.start == t.m.checked
  {
    hide ScanLine, BufferLoop, Holds, TokensIn, LineDone, LineText, Loop, OnLine;
    BufferTurn(b, m, p, lineOk);
  }

  /** Where the buffer agrees with the machine at a line start, its loop is on the way to its own result. */
  lemma OnTheWay(b: string, m: Machine, p: Pointers)
    requires Holds(b, m) && TokensIn(b, p, m.req, m.start) && m.start == m.checked
    ensures m.Valid() && Towards(b, m, p, true, Loop(m, true), true)
  {
    hide BufferLoop, Loop, TokensIn;
    PointersAre(b, m, p);
    if m.req.state.ContentState? && m.req.contentLength < 0 {
      NegativeBody(m);
    } else {
      BufferLoopIsLoop(b, m, p, true);
    }
  }

  /** A call starts on the way to its result. */
  lemma Setting(b: string, m: Machine, p: Pointers)
    requires Fits(b, m) && PointersBehind(p, m.req, m.start)
    ensures Towards(b, m, p, true, ProcessBuffer(b, m, p), !m.req.state.ContentState?)
    ensures m.start <= m.checked <= |m.input| <= |b|
  {
    hide BufferLoop;
  }

  /** The body test moves the line start up to the scan. */
  lemma TestStart(b: string, m: Machine, p: Pointers)
    requires Fits(b, m) && PointersBehind(p, m.req, m.start)
    ensures Fits(b, m.(start := m.checked)) && PointersBehind(p, m.req, m.checked)
    ensures Holds(b, m) && TokensIn(b, p, m.req, m.start) ==>
              Holds(b, m.(start := m.checked)) && TokensIn(b, p, m.req, m.checked)
  {
    hide IsCStr;
  }

  lemma LineSetting(b: string, m: Machine, p: Pointers)
    requires Fits(b, m) && PointersBehind(p, m.req, m.start)
    ensures m.start <= m.checked <= |m.input| <= |b|
    ensures var s, n := ScanLine(b, m.checked, |m.input|), LineDone(b, m, p);
            s.status == LINE_OK ==>
              && n.Valid() && n.req.state == m.req.state && m.checked < n.checked == n.start && |n.input| == |m.input|
              && (n.req.state.RequestLineState? || p.url.Some?)
  {
    hide ScanLine, LineDone, LineText, IsCStr, TokensIn;
    if ScanLine(b, m.checked, |m.input|).status == LINE_OK {
      LineDoneAgrees(b, m, p);
    }
  }

  lemma EnteredBefore(b: string, m: Machine, p: Pointers, lineOk: bool, target: (Machine, Outcome), entered: bool)
    requires Towards(b, m, p, lineOk, target, entered) && !m.req.state.ContentState?
    ensures entered
  {
  }
}
