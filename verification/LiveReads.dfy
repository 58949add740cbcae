/** Reads as the live callback makes them: each is stored over the start of the buffer, while the index grows
    by its length. What `process_read` then finds. */
module LiveReads {
  import opened CString
  import opened CTypes
  import opened Framing
  import opened HttpSyntax
  import opened ReadBuffer
  import opened RequestMachine

  /** A live read of chunk from a state in front of a body, after some bytes were received. An empty read does
      not run the parser. */
  ghost predicate LiveSetting(b: string, m: Machine, p: Pointers, chunk: string) {
    && Fits(b, m) && PointersBehind(p, m.req, m.start) && |m.input| > 0
    && chunk != "" && |m.input| + |chunk| <= READ_BUFFER_SIZE && !m.req.state.ContentState?
  }

  /** What stands in the buffer after a live read, in front of the zeros: the new read, and what it leaves of
      the bytes received before. */
  function Standing(b: string, m: Machine, chunk: string): (t: string)
    requires |m.input| <= |b|
    ensures |t| == if |chunk| >= |m.input| then |chunk| else |m.input|
  {
    if |chunk| >= |m.input| then chunk else chunk + b[|chunk|..|m.input|]
  }

  /** The line feed that the scan meets first follows a carriage return of what stands there. */
  predicate AtCrLf(t: string, c: nat) {
    1 < c < |t| && t[c - 1] == CR && t[c] == LF
  }

  /** The verdict on the bytes from position c on, with zeros behind them. */
  function LiveStatus(t: string, c: nat): LineStatus
    requires c <= |t|
  {
    if AtCrLf(t, c) then LINE_OK
    else if Status(t[c..]) == LINE_OPEN && c + PlainLength(t[c..]) < |t| then LINE_BAD
    else Status(t[c..])
  }

  /** Where the line that is completed ends. */
  function LiveEnd(t: string, c: nat): (e: nat)
    requires c <= |t|
    ensures LiveStatus(t, c) == LINE_OK ==> e < |t|
    ensures c > 0 ==> c - 1 <= e
  {
    if AtCrLf(t, c) then c - 1 else c + PlainLength(t[c..])
  }

  lemma StandsBefore(b: string, m: Machine, chunk: string)
    requires Fits(b, m) && |m.input| + |chunk| <= READ_BUFFER_SIZE
    ensures var (b', t) := (Overlaid(b, chunk), Standing(b, m, chunk));
            && |b'| == |b| && (forall i :: 0 <= i < |t| ==> b'[i] == t[i])
            && (forall i :: |t| <= i < |b| ==> b'[i] == NUL)
  {
  }

  /** Where the scan stops. */
  lemma LiveScanEnd(b: string, m: Machine, chunk: string)
    requires Fits(b, m) && |m.input| > 0 && chunk != "" && |m.input| + |chunk| <= READ_BUFFER_SIZE
    ensures var (t, w) := (Standing(b, m, chunk), |m.input| + |chunk|);
            var k := m.checked + PlainLength(t[m.checked..]);
            && |t| < w && LineEnd(Overlaid(b, chunk), m.checked, w) == (if k < |t| then k else w)
  {
    hide PlainLength, Standing, Overlaid;
    StandsBefore(b, m, chunk);
    var (c, b', t, w) := (m.checked, Overlaid(b, chunk), Standing(b, m, chunk), |m.input| + |chunk|);
    var (tail, seen) := (t[c..], b'[c..w]);
    var k := PlainLength(tail);
    assert forall i :: 0 <= i < |tail| ==> seen[i] == tail[i];
    assert forall i :: |tail| <= i < |seen| ==> seen[i] == b'[c + i] == NUL;
    PlainLengthAt(seen, if k < |tail| then k else |seen|);
  }

  /** A completed line ends two bytes in front of the new position, and nothing in front of that changed. */
  lemma EndedLine(b: string, c: nat, read: nat)
    requires c <= read <= |b| && ScanLine(b, c, read).status == LINE_OK
    ensures var s := ScanLine(b, c, read);
            && s.checked >= 2 && s.buf[s.checked - 2] == NUL && forall i :: 0 <= i < s.checked - 2 ==> s.buf[i] == b[i]
  {
    hide LineEnd;
  }

  lemma LiveVerdict(b: string, m: Machine, chunk: string)
    requires Fits(b, m) && |m.input| > 0 && chunk != "" && |m.input| + |chunk| <= READ_BUFFER_SIZE
    ensures var t := Standing(b, m, chunk);
            var (s, e) := (ScanLine(Overlaid(b, chunk), m.checked, |m.input| + |chunk|), LiveEnd(t, m.checked));
            && s.status == LiveStatus(t, m.checked)
            && s.checked == match s.status { case LINE_OPEN => |m.input| + |chunk| case LINE_BAD => e case LINE_OK => e + 2 }
  {
    hide PlainLength, LineEnd, Standing, Overlaid;
    LiveScanEnd(b, m, chunk);
    StandsBefore(b, m, chunk);
    var (c, b', t, w) := (m.checked, Overlaid(b, chunk), Standing(b, m, chunk), |m.input| + |chunk|);
    var k := LineEnd(b', c, w);
    if k < w {
      assert t[c..][k - c] == t[k];
      assert k + 1 < |t| ==> t[c..][k + 1 - c] == t[k + 1];
      assert k > c ==> t[c..][k - 1 - c] == t[k - 1];
    }
  }

  /** Any live read: exactly when a line completes, where the scan stops if none does, and what the buffer
      holds then. */
  lemma LiveScan(b: string, m: Machine, chunk: string)
    requires Fits(b, m) && |m.input| > 0 && chunk != "" && |m.input| + |chunk| <= READ_BUFFER_SIZE
    ensures var t := Standing(b, m, chunk);
            var (s, e) := (ScanLine(Overlaid(b, chunk), m.checked, |m.input| + |chunk|), LiveEnd(t, m.checked));
            && s.status == LiveStatus(t, m.checked)
            && (s.status == LINE_OPEN ==> s.checked == |m.input| + |chunk|)
            && (s.status == LINE_BAD ==> s.checked == e)
            && (s.status == LINE_OK ==>
                  && s.checked == e + 2 && s.buf[e] == NUL
                  && forall i :: 0 <= i < e ==> s.buf[i] == t[i])
  {
    hide ScanLine, Standing, Overlaid, LiveStatus, LiveEnd;
    LiveVerdict(b, m, chunk);
    StandsBefore(b, m, chunk);
    if LiveStatus(Standing(b, m, chunk), m.checked) == LINE_OK {
      EndedLine(Overlaid(b, chunk), m.checked, |m.input| + |chunk|);
    }
  }

  /** The string at a position that a NUL ends. */
  lemma CutBefore(b: string, u: nat, e: nat)
    requires u <= e < |b| && b[e] == NUL
    ensures CStrAt(b, u) == Cut(b[u..e])
  {
    CStrHere(b, u, e);
    var s := CStrAt(b, u);
    assert b[u..e][..|s|] == s;
    CutIs(b[u..e], s);
  }

  lemma {:induction false} CutIs(t: string, s: string)
    requires s <= t && NUL !in s && (|s| < |t| ==> t[|s|] == NUL)
    ensures Cut(t) == s
    decreases |s|
  {
    if s == "" {
    } else {
      assert s[0] == t[0];
      CutIs(t[1..], s[1..]);
    }
  }

  /** What any live read does. A line completes exactly as LiveStatus says, and without one there is no answer
      and only the scan moves. With one, `m_url`, `m_version` and `m_host` denote what stands at their old places
      up to the end of that line, the line itself is what stands from the old line start on, and the parser goes
      on from these; a request past its request line is then answered with that URL or not at all. */
  lemma LiveRead(b: string, m: Machine, p: Pointers, chunk: string)
    requires LiveSetting(b, m, p, chunk)
    ensures Fits(Overlaid(b, chunk), m.Receive(chunk))
    ensures var (b', w, t) := (Overlaid(b, chunk), m.Receive(chunk), Standing(b, m, chunk));
            var e := LiveEnd(t, m.checked);
            var (n, o) := ProcessBuffer(b', w, p);
            match LiveStatus(t, m.checked)
            case LINE_OPEN => (n, o) == (w.(checked := |w.input|), NoRequest)
            case LINE_BAD => (n, o) == (w.(checked := e), NoRequest)
            case LINE_OK =>
              var (k, line) := (LineDone(b', w, p), LineText(b', w));
              && k.Valid()
              && line == (if m.start <= e then Cut(t[m.start..e]) else "")
              && (if m.req.state.RequestLineState? then k.req == m.req
                  else
                    && p.url.Some? && p.url.value <= e && k.req.url == Some(Cut(t[p.url.value..e]))
                    && (p.version.Some? ==> p.version.value <= e && k.req.version == Some(Cut(t[p.version.value..e])))
                    && (p.host.Some? ==> p.host.value <= e && k.req.host == Some(Cut(t[p.host.value..e])))
                    && (o.NoRequest? || o == Respond(k.req.url.value)))
              && var turn := OnLine(k, line);
                 (n, o) == if turn.Stop? then (turn.m, turn.outcome) else Loop(turn.m, turn.lineOk)
  {
    hide ScanLine, BufferLoop, CStrAt, Cut, LiveStatus, LiveEnd, LineDone, OnLine, Loop, LineText, Standing, Overlaid;
    var (b', w, t) := (Overlaid(b, chunk), m.Receive(chunk), Standing(b, m, chunk));
    OverlaidFits(b, m, chunk, p);
    LiveScan(b, m, chunk);
    BufferTurn(b', w, p, true);
    if LiveStatus(t, m.checked) == LINE_OK {
      LiveStrings(b, m, p, chunk);
      if !m.req.state.RequestLineState? {
        AnswersWithUrl(LineDone(b', w, p), LineText(b', w));
      }
    }
  }

  /** The strings that stand in the buffer after the line was completed. */
  lemma LiveStrings(b: string, m: Machine, p: Pointers, chunk: string)
    requires LiveSetting(b, m, p, chunk) && LiveStatus(Standing(b, m, chunk), m.checked) == LINE_OK
    ensures Fits(Overlaid(b, chunk), m.Receive(chunk))
    ensures var (b', w, t) := (Overlaid(b, chunk), m.Receive(chunk), Standing(b, m, chunk));
            var (k, e) := (LineDone(b', w, p), LiveEnd(t, m.checked));
            && LineText(b', w) == (if m.start <= e then Cut(t[m.start..e]) else "")
            && (if m.req.state.RequestLineState? then k.req == m.req
                else
                  && p.url.Some? && p.url.value <= e && k.req.url == Some(Cut(t[p.url.value..e]))
                  && (p.version.Some? ==> p.version.value <= e && k.req.version == Some(Cut(t[p.version.value..e])))
                  && (p.host.Some? ==> p.host.value <= e && k.req.host == Some(Cut(t[p.host.value..e]))))
  {
    hide ScanLine, CStrAt, Cut, LiveStatus, LiveEnd, Standing, Overlaid;
    OverlaidFits(b, m, chunk, p);
    LiveScan(b, m, chunk);
    var (w, t) := (m.Receive(chunk), Standing(b, m, chunk));
    var (e, buf) := (LiveEnd(t, m.checked), ScanLine(Overlaid(b, chunk), m.checked, |w.input|).buf);
    if m.start <= e {
      StandsThere(buf, t, m.start, e);
    } else {
      CutBefore(buf, m.start, m.start);
      assert buf[m.start..m.start] == "";
      CutIs("", "");
    }
    if !m.req.state.RequestLineState? {
      StandsThere(buf, t, p.url.value, e);
      if p.version.Some? { StandsThere(buf, t, p.version.value, e); }
      if p.host.Some? { StandsThere(buf, t, p.host.value, e); }
    }
  }

  lemma StandsThere(b: string, t: string, u: nat, e: nat)
    requires u <= e < |b| && e <= |t| && b[e] == NUL && forall i :: 0 <= i < e ==> b[i] == t[i]
    ensures CStrAt(b, u) == Cut(t[u..e])
  {
    CutBefore(b, u, e);
    assert b[u..e] == t[u..e];
  }

  /** A live read that stays in front of the scan. If everything received was scanned, it is not seen: the scan
      meets only zeros. Otherwise the bytes that were left decide, not its own, but for a carriage return put
      just in front of them. */
  lemma ShortRead(b: string, m: Machine, p: Pointers, chunk: string)
    requires LiveSetting(b, m, p, chunk) && |chunk| <= m.checked
    ensures Fits(Overlaid(b, chunk), m.Receive(chunk))
    ensures m.checked == |m.input| ==>
              ProcessBuffer(Overlaid(b, chunk), m.Receive(chunk), p) ==
              (m.Receive(chunk).(checked := |m.input| + |chunk|), NoRequest)
    ensures ProcessBuffer(Overlaid(b, chunk), m.Receive(chunk), p).1 != NoRequest ==>
              Status(b[m.checked..|m.input|]) == LINE_OK || AtCrLf(Standing(b, m, chunk), m.checked)
  {
    hide ProcessBuffer, PlainLength, Status, Standing, Overlaid, LiveStatus, LiveEnd, AtCrLf, CStrAt, Cut;
    LiveRead(b, m, p, chunk);
    LeftThere(b, m, chunk);
    StatusOfRest(Standing(b, m, chunk), m.checked, b[m.checked..|m.input|]);
  }

  lemma LeftThere(b: string, m: Machine, chunk: string)
    requires |chunk| <= m.checked <= |m.input| <= |b|
    ensures Standing(b, m, chunk)[m.checked..] == b[m.checked..|m.input|]
  {
  }

  lemma StatusOfRest(t: string, c: nat, rest: string)
    requires c <= |t| && t[c..] == rest
    ensures LiveStatus(t, c) == LINE_OK ==> AtCrLf(t, c) || Status(rest) == LINE_OK
    ensures rest == "" ==> LiveStatus(t, c) == LINE_OPEN
  {
    hide PlainLength, Status;
    NothingAhead();
  }

  lemma NothingAhead()
    ensures Status("") == LINE_OPEN && PlainLength("") == 0
  {
  }

  /** A turn past the request line answers with the URL or not at all. */
  lemma AnswersWithUrl(k: Machine, line: string)
    requires k.Valid() && !k.req.state.RequestLineState?
    ensures var t := OnLine(k, line);
            if t.Stop? then t.outcome.NoRequest? || t.outcome == Respond(k.req.url.value)
            else Loop(t.m, t.lineOk).1.NoRequest? || Loop(t.m, t.lineOk).1 == Respond(k.req.url.value)
  {
    hide RequestLine, HeaderField, Loop;
    var t := OnLine(k, line);
    if t.Go? {
      UrlStays(t.m, t.lineOk);
    }
  }

  // ----- What this does to a second request, and to a bad line -----

  /** An empty line behind the headers of a request without a body is answered. */
  lemma EmptyLineAnswers(b: string, m: Machine, p: Pointers, chunk: string)
    requires LiveSetting(b, m, p, chunk) && m.req.state.HeaderState? && !ExpectsBody(m.req)
    requires var t := Standing(b, m, chunk); LiveStatus(t, m.checked) == LINE_OK && LiveEnd(t, m.checked) <= m.start
    ensures Fits(Overlaid(b, chunk), m.Receive(chunk)) && p.url.Some?
    ensures var t := Standing(b, m, chunk);
            && p.url.value <= LiveEnd(t, m.checked)
            && ProcessBuffer(Overlaid(b, chunk), m.Receive(chunk), p).1 ==
               Respond(Cut(t[p.url.value..LiveEnd(t, m.checked)]))
  {
    hide ScanLine, BufferLoop, Cut, LineDone, LineText, OnLine, Loop, ExpectsBody, HeaderField, LiveStatus, LiveEnd,
         Standing, Overlaid;
    LiveRead(b, m, p, chunk);
    var (b', w, t) := (Overlaid(b, chunk), m.Receive(chunk), Standing(b, m, chunk));
    assert m.start == LiveEnd(t, m.checked) ==> t[m.start..LiveEnd(t, m.checked)] == "";
    CutIs("", "");
    LiveScan(b, m, chunk);
    LineDoneAgrees(b', w, p);
    var k := LineDone(b', w, p);
    OnHeaderLine(k, "");
    SameExpectation(k.req, m.req);
  }

  /** On a connection that is not reset: if the second read has a CRLF just before and at the place where the
      first ended, an empty line is completed there, and the answer is to what now stands at the old place of
      the URL. This is the branch of `parse_line` for a line feed whose carriage return was passed over. */
  lemma SecondReadAtCrLf(b: string, m: Machine, p: Pointers, chunk: string)
    requires LiveSetting(b, m, p, chunk) && m.req.state.HeaderState? && !ExpectsBody(m.req)
    requires m.start == m.checked == |m.input| && AtCrLf(chunk, m.checked)
    ensures LateLineFeed(Overlaid(b, chunk), m.checked)
    ensures Fits(Overlaid(b, chunk), m.Receive(chunk)) && p.url.Some? && p.url.value < m.checked
    ensures ProcessBuffer(Overlaid(b, chunk), m.Receive(chunk), p).1 == Respond(Cut(chunk[p.url.value..m.checked - 1]))
  {
    hide ProcessBuffer, Cut, ExpectsBody;
    EmptyLineAnswers(b, m, p, chunk);
  }

  lemma SameExpectation(q: Request, r: Request)
    requires q.verb == r.verb && q.contentLength == r.contentLength
    ensures ExpectsBody(q) == ExpectsBody(r)
  {
  }

  /** A parser that stands behind a first request of 19 bytes whose URL begins at position 4, such as
      `GET /a HTTP/1.1` with its empty line, answers this second read with the rest of its request line. */
  lemma OtherUrlAnswered(b: string, m: Machine, p: Pointers)
    requires Fits(b, m) && PointersBehind(p, m.req, m.start) && m.req.state.HeaderState? && !ExpectsBody(m.req)
    requires m.start == m.checked == |m.input| == 19 && p.url == Some(4)
    ensures var chunk := "GET /aaaa HTTP/1.1" + "\r\nX: y\r\n\r\n";
            && Fits(Overlaid(b, chunk), m.Receive(chunk))
            && ProcessBuffer(Overlaid(b, chunk), m.Receive(chunk), p).1 == Respond("/aaaa HTTP/1.1")
  {
    hide ProcessBuffer, Cut, ExpectsBody;
    var chunk := "GET /aaaa HTTP/1.1" + "\r\nX: y\r\n\r\n";
    SecondReadAtCrLf(b, m, p, chunk);
    assert chunk[4..18] == "/aaaa HTTP/1.1";
    CutIs(chunk[4..18], "/aaaa HTTP/1.1");
  }

  /** A bad line does not stay: if a live read lays a good request line over it, that is accepted. */
  lemma BadLineReplaced(b: string, m: Machine, p: Pointers, chunk: string)
    requires LiveSetting(b, m, p, chunk) && m.req.state.RequestLineState?
    ensures Fits(Overlaid(b, chunk), m.Receive(chunk))
    ensures var t := Standing(b, m, chunk);
            LiveStatus(t, m.checked) == LINE_OK && m.start <= LiveEnd(t, m.checked) ==>
              var r := RequestLine(Cut(t[m.start..LiveEnd(t, m.checked)]));
              var (n, o) := ProcessBuffer(Overlaid(b, chunk), m.Receive(chunk), p);
              r.GoodLine? ==>
                && n.req.url == Some(r.url) && !n.req.state.RequestLineState?
                && (o.NoRequest? || o == Respond(r.url))
  {
    hide ScanLine, BufferLoop, Cut, LineDone, LineText, Loop, RequestLine, LiveStatus, LiveEnd, Standing, Overlaid;
    LiveRead(b, m, p, chunk);
    var t := Standing(b, m, chunk);
    if LiveStatus(t, m.checked) == LINE_OK && m.start <= LiveEnd(t, m.checked) {
      var line := Cut(t[m.start..LiveEnd(t, m.checked)]);
      if RequestLine(line).GoodLine? {
        var turn := OnLine(LineDone(Overlaid(b, chunk), m.Receive(chunk), p), line);
        UrlStays(turn.m, turn.lineOk);
      }
    }
  }

  /** Bytes left behind an answer, on a connection that is not reset: if they are an empty line, any live read
      in front of them is answered, however short, with what then stands at the old place of the URL. */
  lemma LeftoverAnswered(b: string, m: Machine, p: Pointers, chunk: string)
    requires LiveSetting(b, m, p, chunk) && m.req.state.HeaderState? && !ExpectsBody(m.req)
    requires m.start == m.checked && |chunk| <= m.checked && b[m.checked..|m.input|] == CRLF
    ensures Fits(Overlaid(b, chunk), m.Receive(chunk)) && p.url.Some? && p.url.value < m.checked
    ensures ProcessBuffer(Overlaid(b, chunk), m.Receive(chunk), p).1 ==
            Respond(Cut(Standing(b, m, chunk)[p.url.value..m.checked]))
  {
    hide ProcessBuffer, Cut, ExpectsBody, Standing, Overlaid, Status, PlainLength;
    LeftThere(b, m, chunk);
    EmptyLineAhead();
    var t := Standing(b, m, chunk);
    assert t[m.checked..][0] == t[m.checked];
    EmptyLineAnswers(b, m, p, chunk);
  }

  lemma EmptyLineAhead()
    ensures Status(CRLF) == LINE_OK && PlainLength(CRLF) == 0
  {
  }

  /** In the body: the bytes of a live read are counted, though they are not behind the head, from where the
      scan stands. The call answers if and only if they make up the length, and the URL is read where they now
      stand over it; a line among them changes nothing. */
  lemma LiveBodyRead(b: string, m: Machine, p: Pointers, chunk: string)
    requires Fits(b, m) && PointersBehind(p, m.req, m.start) && m.req.state.ContentState?
    requires |m.input| + |chunk| <= READ_BUFFER_SIZE && m.req.contentLength <= INT_MAX - READ_BUFFER_SIZE
    ensures Fits(Overlaid(b, chunk), m.Receive(chunk))
    ensures var (b', w) := (Overlaid(b, chunk), m.Receive(chunk));
            ProcessBuffer(b', w, p).1 ==
            if |m.input| + |chunk| >= m.req.contentLength + m.checked then
              Respond(UrlAfterBody(b', m.start + m.req.contentLength, p))
            else NoRequest
  {
    hide ScanLine, BufferLoop, UrlAfterBody, LineDone, Overlaid, Loop;
    var (b', w) := (Overlaid(b, chunk), m.Receive(chunk));
    OverlaidFits(b, m, chunk, p);
    BufferTurn(b', w, p, true);
    if !w.BodyComplete() {
      var v := w.(start := w.checked);
      BufferTurn(b', v, p, false);
      if ScanLine(b', v.checked, |v.input|).status == LINE_OK {
        NoAnswerYet(LineDone(b', v, p));
      }
    }
  }

  lemma NoAnswerYet(n: Machine)
    requires n.Valid() && n.req.state.ContentState? && n.req.contentLength <= INT_MAX - READ_BUFFER_SIZE
    requires |n.input| <= READ_BUFFER_SIZE && |n.input| < n.req.contentLength + n.checked
    ensures !n.BodyComplete() && Loop(n, false).1 == NoRequest
  {
    hide Loop, Consumed;
    UnlinesOfSplit(n.Pending());
    BodyIncomplete(n, false);
  }
}
