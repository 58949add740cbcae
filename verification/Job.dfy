/** The request half of `CJob`: the read buffer, its indices, and the pointers into it. */
module Job {
  import opened CString
  import opened CTypes
  import opened Framing
  import opened HttpSyntax
  import opened ReadBuffer
  import opened RequestMachine

  /** What `m_file_address` is: nothing was ever stored in it, or zero, or a mapped file. */
  datatype FileAddress = Unset | Null | Mapped

  class Job {
    const readBuf: array<char>
    const realFile: array<char>
    var readIdx: nat
    var checkedIdx: nat
    var startLine: nat
    var checkState: CheckState
    var verb: Method
    var request: HttpCode
    var url: Option<nat>
    var version: Option<nat>
    var host: Option<nat>
    var contentLength: CInt
    var linger: bool
    var fileAddress: FileAddress
    ghost var machine: Machine

    ghost function Ptrs(): Pointers
      reads this
    {
      Pointers(url, version, host)
    }

    ghost predicate Tokens(limit: nat)
      reads this, readBuf
    {
      TokensIn(readBuf[..], Ptrs(), machine.req, limit)
    }

    /** The fields are those of the machine. Before a request line is accepted the method means nothing. */
    ghost predicate Fields()
      reads this
    {
      && checkState == machine.req.state
      && contentLength == machine.req.contentLength && linger == machine.req.linger
      && (if checkState.RequestLineState? then machine.req == INITIAL
          else verb == machine.req.verb && request == RequestCode(verb))
    }

    ghost predicate Indices()
      reads this
    {
      startLine == machine.start && checkedIdx == machine.checked && readIdx == |machine.input|
    }

    /** The path buffer: `init` zeroes it, and its last byte is never written after that. */
    ghost predicate PathReady()
      reads this, realFile
    {
      realFile != readBuf && realFile.Length == FILENAME_LEN && realFile[FILENAME_LEN - 1] == NUL
    }

    /** What holds between any two calls, even if the bytes in the buffer are not those the parser saw. */
    ghost predicate Usable()
      reads this, readBuf, realFile
    {
      PathReady() && Fields() && Indices() && Fits(readBuf[..], machine) && PointersBehind(Ptrs(), machine.req, startLine)
    }

    /** The buffer holds what the parser expects: reads have only been appended. */
    ghost predicate Valid()
      reads this, readBuf, realFile
      ensures Valid() ==> Usable()
    {
      PathReady() && machine.Valid() && Fields() && Indices() && Holds(readBuf[..], machine) && Tokens(startLine)
    }

    constructor ()
      ensures Valid() && fresh(readBuf) && fresh(realFile) && machine == Initial("") && fileAddress == Unset
      ensures readBuf.Length == 2048 && realFile.Length == 200
    {
      readBuf := new char[READ_BUFFER_SIZE](_ => NUL);
      realFile := new char[FILENAME_LEN](_ => NUL);
      readIdx, checkedIdx, startLine := 0, 0, 0;
      checkState, verb, request := RequestLineState, GET, NO_REQUEST;
      url, version, host, contentLength, linger := None, None, None, 0, false;
      fileAddress := Unset;
      machine := Initial("");
    }

    method Init()
      requires readBuf.Length == READ_BUFFER_SIZE && realFile.Length == FILENAME_LEN && realFile != readBuf
      modifies this, readBuf, realFile
      ensures Valid() && machine == Initial("") && fileAddress == old(fileAddress)
    {
      checkState := RequestLineState;
      linger := false;
      verb := GET;
      url, version, contentLength, host := None, None, 0, None;
      startLine, checkedIdx, readIdx := 0, 0, 0;
      forall i | 0 <= i < readBuf.Length {
        readBuf[i] := NUL;
      }
      forall i | 0 <= i < realFile.Length {
        realFile[i] := NUL;
      }
      machine := Initial("");
    }

    /** Bytes read from the socket go behind the ones already there. */
    method Read(chunk: string)
      requires Valid() && |chunk| <= READ_BUFFER_SIZE - readIdx
      modifies this`readIdx, this`machine, readBuf
      ensures Valid() && machine == old(machine).Receive(chunk)
    {
      ghost var b := readBuf[..];
      forall i | 0 <= i < |chunk| {
        readBuf[readIdx + i] := chunk[i];
      }
      readIdx := readIdx + |chunk|;
      machine := machine.Receive(chunk);
      TokensKept(b, readBuf[..], Ptrs(), machine.req, startLine);
    }

    /** The read of the live callback: it drains the socket buffer to the start of the read buffer and
        advances the index by as much. */
    method GetReadBuffer(chunk: string)
      requires Usable() && |chunk| <= READ_BUFFER_SIZE - readIdx
      modifies this`readIdx, this`machine, readBuf
      ensures Usable() && readBuf[..] == Overlaid(old(readBuf[..]), chunk)
      ensures readIdx == old(readIdx) + |chunk| && machine == old(machine).Receive(chunk)
      ensures old(Valid()) && (old(readIdx) == 0 || chunk == "") ==> Valid()
    {
      ghost var b := readBuf[..];
      readIdx := readIdx + |chunk|;
      forall i | 0 <= i < |chunk| {
        readBuf[i] := chunk[i];
      }
      assert readBuf[..] == Overlaid(b, chunk);
      machine := machine.Receive(chunk);
      OverlaidFits(b, old(machine), chunk, Ptrs());
    }

    method ParseLine() returns (status: LineStatus)
      requires checkedIdx <= readIdx <= readBuf.Length
      modifies this`checkedIdx, readBuf
      ensures Scan(status, checkedIdx, readBuf[..]) == ScanLine(old(readBuf[..]), old(checkedIdx), readIdx)
      ensures var b := old(readBuf[..]);
              var k := LineEnd(b, old(checkedIdx), readIdx);
              if k == readIdx || (b[k] == CR && k + 1 == readIdx) then
                status == LINE_OPEN && checkedIdx == k && readBuf[..] == b
              else if b[k] == CR && b[k + 1] == LF then
                status == LINE_OK && checkedIdx == k + 2 && readBuf[..] == b[k := NUL][k + 1 := NUL]
              else if LateLineFeed(b, k) then
                status == LINE_OK && checkedIdx == k + 1 && readBuf[..] == b[k - 1 := NUL][k := NUL]
              else
                status == LINE_BAD && checkedIdx == k && readBuf[..] == b
    {
      ghost var b, c := readBuf[..], checkedIdx;
      while checkedIdx < readIdx
        invariant c <= checkedIdx <= readIdx
        invariant readBuf[..] == b
        invariant forall i :: c <= i < checkedIdx ==> !IsEol(b[i])
      {
        var temp := readBuf[checkedIdx];
        if IsEol(temp) {
          EndAt(b, c, readIdx, checkedIdx);
        }
        if temp == CR {
          if checkedIdx + 1 == readIdx {
            return LINE_OPEN;
          } else if readBuf[checkedIdx + 1] == LF {
            readBuf[checkedIdx] := NUL;
            checkedIdx := checkedIdx + 1;
            readBuf[checkedIdx] := NUL;
            checkedIdx := checkedIdx + 1;
            return LINE_OK;
          }
          return LINE_BAD;
        } else if temp == LF {
          if checkedIdx > 1 && readBuf[checkedIdx - 1] == CR {
            readBuf[checkedIdx - 1] := NUL;
            readBuf[checkedIdx] := NUL;
            checkedIdx := checkedIdx + 1;
            return LINE_OK;
          }
          return LINE_BAD;
        }
        checkedIdx := checkedIdx + 1;
      }
      EndAt(b, c, readIdx, readIdx);
      return LINE_OPEN;
    }

    static lemma EndAt(b: string, c: nat, read: nat, k: nat)
      requires c <= k <= read <= |b| && (k < read ==> IsEol(b[k]))
      requires forall i :: c <= i < k ==> !IsEol(b[i])
      ensures LineEnd(b, c, read) == k
    {
      PlainLengthAt(b[c..read], k - c);
    }

    /** `parse_line`, and for a complete line `get_line` and the new line start. */
    method GetLine() returns (status: LineStatus, text: nat)
      requires Usable()
      modifies this`checkedIdx, this`startLine, this`machine, readBuf
      ensures text == old(startLine)
      ensures var (b, m) := (old(readBuf[..]), old(machine));
              var s := ScanLine(b, m.checked, |m.input|);
              && status == s.status
              && (if status != LINE_OK then Usable() && readBuf[..] == b && machine == m.(checked := s.checked)
                  else
                    && Valid() && readBuf[..] == s.buf && machine == LineDone(b, m, Ptrs())
                    && IsCStr(readBuf[..], text, LineText(b, m)) && text + |LineText(b, m)| < startLine)
      ensures old(Valid()) && status != LINE_OK ==> Valid()
    {
      hide PlainLength, Cut, IsCStr, Status, Holds, LineEnd, ScanLine, LineText, LineDone, TokensIn;
      ghost var b, m := readBuf[..], machine;
      text := startLine;
      status := ParseLine();
      if status == LINE_OK {
        startLine := checkedIdx;
        LineDoneAgrees(b, m, Ptrs());
        machine := LineDone(b, m, Ptrs());
        Agreeing(readBuf[..], machine);
      } else {
        machine := machine.(checked := checkedIdx);
        if Holds(b, m) && TokensIn(b, Ptrs(), m.req, m.start) {
          LineDoneIsNext(b, m, Ptrs());
          ScanStopped(b, m);
        }
      }
    }

    /** End the token at p with a NUL in place of its first blank, and skip the other blanks; the
        result is null when there is no blank. */
    method EndToken(p: nat, ghost s: string) returns (next: Option<nat>)
      requires IsCStr(readBuf[..], p, s)
      modifies readBuf
      ensures next.Some? == HasGap(s)
      ensures next.Some? ==>
                && IsCStr(readBuf[..], p, Token(s))
                && IsCStr(readBuf[..], next.value, BehindGap(s)) && next.value + |BehindGap(s)| == p + |s|
      ensures OnlyWithin(old(readBuf[..]), readBuf[..], p, |s|)
    {
      hide Cut, IsCStr, FirstBlank, LeadingBlanks, SkipBlanks, CStrAt;
      ghost var b := readBuf[..];
      CStrRead(b, p, s);
      BoundsOfCStr(b, p, s);
      var i := FirstBlank(CStrAt(readBuf[..], p));
      if i == |CStrAt(readBuf[..], p)| {
        return None;
      }
      readBuf[p + i] := NUL;
      ghost var b' := b[p + i := NUL];
      assert readBuf[..] == b';
      TokenEnded(b, p, s, i);
      BlanksSkipped(b', p + i + 1, s[i + 1..]);
      next := Some(p + i + 1 + LeadingBlanks(CStrAt(readBuf[..], p + i + 1)));
    }

    /** The path of the target. */
    method TakePath(ghost t: string) returns (ok: bool)
      requires url.Some? && IsCStr(readBuf[..], url.value, t)
      modifies this`url
      ensures ok == TargetPath(t).Some?
      ensures ok ==>
                && url == Some(old(url.value) + |t| - |TargetPath(t).value|)
                && IsCStr(readBuf[..], url.value, TargetPath(t).value)
      ensures ok <==> exists p :: IsPathOf(t, p)
      ensures forall p :: IsPathOf(t, p) ==> ok && IsCStr(readBuf[..], url.value, p)
    {
      hide Cut, IsCStr, EqNoCase, CStrAt, FirstSlash, IsPathOf;
      forall p: string ensures TargetPath(t) == Some(p) <==> IsPathOf(t, p) {
        TargetPathExactly(t, p);
      }
      CStrRead(readBuf[..], url.value, t);
      BoundsOfCStr(readBuf[..], url.value, t);
      if HasPrefixNoCase(CStrAt(readBuf[..], url.value), HTTP_SCHEME) {
        PathInTarget(readBuf[..], url.value, t);
        var at := url.value + 7;
        var k := FirstSlash(CStrAt(readBuf[..], at));
        url := if k < |CStrAt(readBuf[..], at)| then Some(at + k) else None;
      }
      if url.None? {
        return false;
      }
      var u := CStrAt(readBuf[..], url.value);
      return u != "" && u[0] == '/';
    }

    /** The target and the version behind the method. */
    method TakeTarget(ghost rest: string) returns (ok: bool)
      requires url.Some? && IsCStr(readBuf[..], url.value, rest)
      modifies this`url, this`version, readBuf
      ensures OnlyWithin(old(readBuf[..]), readBuf[..], old(url.value), |rest|)
      ensures forall v: Method :: ok == AfterMethod(v, rest).GoodLine?
      ensures forall v: Method :: ok ==>
                                    var r := AfterMethod(v, rest);
                                    && r.verb == v
                                    && Denotes(readBuf[..], url, Some(r.url), old(url.value) + |rest| + 1)
                                    && Denotes(readBuf[..], version, Some(r.version), old(url.value) + |rest| + 1)
    {
      hide Cut, IsCStr, EqNoCase, HasGap, Token, BehindGap, CStrAt, TargetPath;
      version := EndToken(url.value, rest);
      if version.None? {
        return false;
      }
      CStrRead(readBuf[..], version.value, BehindGap(rest));
      BoundsOfCStr(readBuf[..], version.value, BehindGap(rest));
      if !EqNoCase(CStrAt(readBuf[..], version.value), HTTP_VERSION) {
        return false;
      }
      ok := TakePath(Token(rest));
    }

    method ParseRequestLine(text: nat, ghost line: string) returns (ret: HttpCode)
      requires Valid() && checkState.RequestLineState?
      requires IsCStr(readBuf[..], text, line) && text + |line| < startLine
      modifies this`url, this`version, this`verb, this`request, this`checkState, this`machine, readBuf
      ensures RequestLine(line).BadLine? ==> ret == BAD_REQUEST && Valid() && machine == old(machine)
      ensures RequestLine(line).GoodLine? ==>
                && ret == RequestCode(RequestLine(line).verb)
                && Valid()
                && machine == old(machine).(req := WithRequestLine(old(machine).req, RequestLine(line)))
    {
      hide Cut, MethodOf, IsCStr, EqNoCase, HasGap, Token, BehindGap, CStrAt, Holds, AfterMethod, Denotes, OnlyWithin, Fits,
           PointersBehind;
      ghost var b, rest := readBuf[..], BehindGap(line);
      url := EndToken(text, line);
      HeldWithin(b, readBuf[..], machine, machine.req, text, |line|);
      if url.None? {
        return BAD_REQUEST;
      }
      CStrRead(readBuf[..], text, Token(line));
      BoundsOfCStr(readBuf[..], text, Token(line));
      var known := MethodOf(CStrAt(readBuf[..], text));
      if known.None? {
        return BAD_REQUEST;
      }
      verb := known.value;
      request := RequestCode(verb);
      ghost var b', at := readBuf[..], url.value;
      var ok := TakeTarget(rest);
      OnlyWithinBoth(b, b', readBuf[..], text, |line|, at, |rest|);
      HeldWithin(b, readBuf[..], machine, machine.req, text, |line|);
      if !ok {
        return BAD_REQUEST;
      }
      checkState := HeaderState;
      HeldWithin(b, readBuf[..], machine, WithRequestLine(machine.req, RequestLine(line)), text, |line|);
      machine := machine.(req := WithRequestLine(machine.req, RequestLine(line)));
      DenotesBefore(readBuf[..], url, machine.req.url, at + |rest| + 1, startLine);
      DenotesBefore(readBuf[..], version, machine.req.version, at + |rest| + 1, startLine);
      DenotesNone(readBuf[..], host, startLine);
      return request;
    }

    /** Step over the name of a header field and the blanks behind it. */
    method FieldValue(text: nat, n: nat, ghost line: string) returns (at: nat, value: string)
      requires IsCStr(readBuf[..], text, line) && n <= |line|
      ensures value == SkipBlanks(line[n..])
      ensures IsCStr(readBuf[..], at, value) && at + |value| == text + |line|
    {
      hide Cut, IsCStr, CStrAt, LeadingBlanks, SkipBlanks;
      BoundsOfCStr(readBuf[..], text, line);
      CStrSuffix(readBuf[..], text, line, n);
      CStrRead(readBuf[..], text + n, line[n..]);
      BlanksSkipped(readBuf[..], text + n, line[n..]);
      at := text + n;
      at := at + LeadingBlanks(CStrAt(readBuf[..], at));
      value := CStrAt(readBuf[..], at);
    }

    /** The empty line. */
    method EndHeaders() returns (ret: HttpCode)
      requires Valid() && checkState.HeaderState?
      modifies this`checkState, this`machine
      ensures Valid()
      ensures checkState.ContentState? <==> old(machine).req.verb !in {GET, HEAD} && old(contentLength) != 0
      ensures var q := old(machine).req;
              if q.verb != GET && q.verb != HEAD && q.contentLength != 0 then
                ret == NO_REQUEST && machine == old(machine).(req := q.(state := ContentState))
              else
                ret == (if q.verb == HEAD then HEAD_REQUEST else GET_REQUEST) && machine == old(machine)
    {
      hide Cut, IsCStr, Holds;
      if verb == GET {
        return GET_REQUEST;
      }
      if verb == HEAD {
        return HEAD_REQUEST;
      }
      if contentLength != 0 {
        checkState := ContentState;
        RequestReplaced(readBuf[..], machine, machine.req.(state := ContentState));
        machine := machine.(req := machine.req.(state := ContentState));
        return NO_REQUEST;
      }
      return GET_REQUEST;
    }

    method ParseHeaders(text: nat, ghost line: string) returns (ret: HttpCode)
      requires Valid() && checkState.HeaderState?
      requires IsCStr(readBuf[..], text, line) && text + |line| < startLine
      modifies this`checkState, this`linger, this`contentLength, this`host, this`machine
      ensures Valid()
      ensures var q, f := old(machine).req, HeaderField(line);
              if !f.EndOfHeaders? then
                ret == NO_REQUEST && machine == old(machine).(req := WithField(q, f))
              else if q.verb != GET && q.verb != HEAD && q.contentLength != 0 then
                ret == NO_REQUEST && machine == old(machine).(req := q.(state := ContentState))
              else
                ret == (if q.verb == HEAD then HEAD_REQUEST else GET_REQUEST) && machine == old(machine)
    {
      hide Cut, IsCStr, EqNoCase, CStrAt, Holds, Atol, SkipBlanks;
      CStrRead(readBuf[..], text, line);
      BoundsOfCStr(readBuf[..], text, line);
      var s := CStrAt(readBuf[..], text);
      if s == "" {
        ret := EndHeaders();
        return;
      }
      var at, value;
      if HasPrefixNoCase(s, "Connection:") {
        at, value := FieldValue(text, 11, line);
        if EqNoCase(value, "keep-alive") {
          linger := true;
        }
      } else if HasPrefixNoCase(s, "Content-Length:") {
        at, value := FieldValue(text, 15, line);
        contentLength := Int32(Atol(value));
      } else if HasPrefixNoCase(s, "Host:") {
        at, value := FieldValue(text, 5, line);
        host := Some(at);
      }
      RequestReplaced(readBuf[..], machine, WithField(machine.req, HeaderField(line)));
      machine := machine.(req := WithField(machine.req, HeaderField(line)));
      return NO_REQUEST;
    }

    /** `parse_content`. The terminator goes behind the body. */
    method ParseContent(text: nat) returns (ret: HttpCode)
      modifies readBuf
      ensures var complete := readIdx >= Int32(contentLength + checkedIdx);
              && ret == (if complete then GET_REQUEST else NO_REQUEST)
              && readBuf[..] == if complete then Terminated(old(readBuf[..]), text + contentLength) else old(readBuf[..])
    {
      if readIdx >= Int32(contentLength + checkedIdx) {
        if 0 <= text + contentLength < readBuf.Length {
          readBuf[text + contentLength] := NUL;
        }
        return GET_REQUEST;
      }
      return NO_REQUEST;
    }

    /** The copies of `do_request`: the document root, then as much of the URL as fits, padded with zeros up to
        but not including the last byte. */
    method CopyPath()
      requires PathReady() && url.Some? && url.value <= readBuf.Length
      modifies realFile
      ensures PathReady() && CStrAt(realFile[..], 0) == RealFile(CStrAt(readBuf[..], url.value))
    {
      hide Cut, CStrAt, RealFile;
      ghost var b := readBuf[..];
      forall i | 0 <= i < |DOC_ROOT| {
        realFile[i] := DOC_ROOT[i];
      }
      realFile[|DOC_ROOT|] := NUL;
      var len := |DOC_ROOT|;
      assert readBuf[..] == b;
      var u := CStrAt(readBuf[..], url.value);
      forall i | len <= i < FILENAME_LEN - 1 {
        realFile[i] := if i - len < |u| then u[i - len] else NUL;
      }
      PathIs(realFile[..], b, url.value, u);
      assert readBuf[..] == b;
    }

    /** `do_request`: the file system is asked about the C string in the path buffer, and only a regular file
        is mapped. */
    method DoRequest(stat: string -> FileStatus) returns (ret: HttpCode)
      requires PathReady() && url.Some? && url.value <= readBuf.Length
      modifies this`fileAddress, realFile
      ensures PathReady() && CStrAt(realFile[..], 0) == RealFile(CStrAt(readBuf[..], url.value))
      ensures ret == FileCode(stat(CStrAt(realFile[..], 0)))
      ensures var s := stat(CStrAt(realFile[..], 0));
              && (ret == NO_RESOURCE <==> s.Missing?) && (ret == FORBIDDEN_REQUEST <==> s.Unreadable?)
              && (ret == BAD_REQUEST <==> s.Directory?) && (ret == FILE_REQUEST <==> s.Regular?)
      ensures fileAddress == if ret == FILE_REQUEST then Mapped else old(fileAddress)
    {
      hide CStrAt, RealFile;
      CopyPath();
      ghost var b, path := readBuf[..], realFile[..];
      ret := FileCode(stat(CStrAt(realFile[..], 0)));
      if ret == FILE_REQUEST {
        fileAddress := Mapped;
      }
      assert readBuf[..] == b && realFile[..] == path;
    }

    method Unmap()
      modifies this`fileAddress
      ensures fileAddress == Null
    {
      if fileAddress != Null {
        fileAddress := Null;
      }
    }

    /** How a call ends that gives an answer. If the call has itself come to a body with a negative length,
        that body is terminated in front of its start, which may cut the URL short. */
    ghost predicate Answers(m: Machine, o: Outcome, ret: HttpCode, stat: string -> FileStatus, entered: bool)
      reads this, readBuf, realFile
      ensures Answers(m, o, ret, stat, entered) ==> !o.NoRequest? && ret != NO_REQUEST
    {
      && !o.NoRequest? && ret != NO_REQUEST && Usable() && machine == m
      && (o.Malformed? || !m.req.state.ContentState? ==> Valid())
      && (o.Malformed? ==> ret == BAD_REQUEST)
      && (o.Respond? ==>
            && url.Some?
            && ret == FileCode(stat(RealFile(if entered then UrlRead(m, o.url, url.value) else o.url))))
    }

    /** A call that ends with a line. */
    lemma LineEnds(o: Outcome, ret: HttpCode, stat: string -> FileStatus)
      requires Valid() && !machine.req.state.ContentState?
      requires if o.Malformed? then ret == BAD_REQUEST
               else o.Respond? && url.Some? && ret == FileCode(stat(RealFile(o.url)))
      ensures Answers(machine, o, ret, stat, true)
    {
      hide RealFile, Holds, TokensIn;
    }

    /** In the body the pointers are set, and the terminator leaves the sizes alone. */
    lemma InBody(at: int)
      requires Usable() && checkState.ContentState?
      ensures url.Some? && url.value <= readBuf.Length && Fits(Terminated(readBuf[..], at), machine)
    {
    }

    /** A header line: the empty one may end the call. */
    method HandleHeader(text: nat, ghost line: string, stat: string -> FileStatus) returns (done: bool, ret: HttpCode)
      requires Valid() && checkState.HeaderState?
      requires IsCStr(readBuf[..], text, line) && text + |line| < startLine
      modifies this`checkState, this`linger, this`contentLength, this`host, this`machine, this`fileAddress, realFile
      ensures Valid() && fileAddress == if done && ret == FILE_REQUEST then Mapped else old(fileAddress)
      ensures var t := OnLine(old(machine), line);
              && done == t.Stop? && machine == t.m && (t.Go? ==> t.lineOk)
              && (t.Stop? ==> Answers(t.m, t.outcome, ret, stat, true))
    {
      hide Cut, IsCStr, CStrAt, Holds, HeaderField, TokensIn, Answers, RealFile, Fits, PointersBehind, FileCode;
      ret := ParseHeaders(text, line);
      done := ret == GET_REQUEST || ret == HEAD_REQUEST;
      if done {
        UrlReads(readBuf[..], Ptrs(), machine.req, startLine);
        ret := DoRequest(stat);
        LineEnds(Respond(machine.req.url.value), ret, stat);
      }
    }

    /** In the body: the completion test. */
    method HandleContent(text: nat, stat: string -> FileStatus) returns (done: bool, ret: HttpCode)
      requires Usable() && checkState.ContentState? && text <= startLine
      modifies this`fileAddress, readBuf, realFile
      ensures Usable() && fileAddress == if done && ret == FILE_REQUEST then Mapped else old(fileAddress)
      ensures done == machine.BodyComplete() && (!done && old(Valid()) ==> Valid())
      ensures if done then
                ret == FileCode(stat(RealFile(UrlAfterBody(old(readBuf[..]), text + contentLength, Ptrs()))))
              else readBuf[..] == old(readBuf[..])
    {
      hide Cut, CStrAt, Holds, TokensIn, RealFile, Fits, PointersBehind, FileCode;
      InBody(text + contentLength);
      ret := ParseContent(text);
      done := ret == GET_REQUEST;
      if done {
        ret := DoRequest(stat);
      }
    }

    /** One completed line, in the three cases of the loop body of `process_read`. In the body there need
        not be a line. */
    method HandleLine(text: nat, ghost line: string, stat: string -> FileStatus)
      returns (done: bool, ret: HttpCode, status: LineStatus)
      requires Usable() && text <= startLine
      requires !checkState.ContentState? ==> Valid() && IsCStr(readBuf[..], text, line) && text + |line| < startLine
      modifies this`url, this`version, this`verb, this`request, this`checkState, this`linger, this`contentLength,
               this`host, this`machine, this`fileAddress, readBuf, realFile
      ensures fileAddress == if done && ret == FILE_REQUEST then Mapped else old(fileAddress)
      ensures status != LINE_BAD && Usable() && (!done && old(Valid()) ==> Valid())
      ensures !old(checkState).ContentState? ==>
                var t := OnLine(old(machine), line);
                && done == t.Stop? && machine == t.m && Valid()
                && (t.Go? ==> status == LINE_OK && t.lineOk)
                && (t.Stop? ==> Answers(t.m, t.outcome, ret, stat, true))
      ensures old(checkState).ContentState? ==>
                && done == machine.BodyComplete() && machine == old(machine) && Ptrs() == old(Ptrs())
                && (if done then
                      ret == FileCode(stat(RealFile(UrlAfterBody(old(readBuf[..]), text + contentLength, Ptrs()))))
                    else status == LINE_OPEN && readBuf[..] == old(readBuf[..]))
    {
      hide Cut, IsCStr, CStrAt, Holds, RequestLine, HeaderField, TokensIn, Answers, RealFile, Fits, PointersBehind, FileCode,
           UrlAfterBody;
      status := LINE_OK;
      match checkState
      case RequestLineState =>
        ret := ParseRequestLine(text, line);
        done := ret == BAD_REQUEST;
        if done {
          LineEnds(Malformed, ret, stat);
        }
      case HeaderState =>
        done, ret := HandleHeader(text, line, stat);
      case ContentState =>
        done, ret := HandleContent(text, stat);
        if !done {
          status := LINE_OPEN;
        }
    }

    /** The condition of the loop of `process_read`, and for a turn the text and the new line start. In the
        body the first turn has no line. */
    method NextText(lineOk: bool, ghost target: (Machine, Outcome), ghost entered: bool)
      returns (taken: bool, text: nat, ghost line: string)
      requires Usable() && Towards(readBuf[..], machine, Ptrs(), lineOk, target, entered)
      modifies this`checkedIdx, this`startLine, this`machine, readBuf
      ensures Usable() && (old(Valid()) ==> Valid()) && text <= startLine
      ensures !taken ==> target == (machine, NoRequest)
      ensures taken ==>
                && |machine.input| == |old(machine).input|
                && (if old(checkState).ContentState? && lineOk then machine.checked == old(machine).checked
                    else machine.checked > old(machine).checked)
      ensures taken && checkState.ContentState? ==>
                var url := UrlAfterBody(readBuf[..], text + contentLength, Ptrs());
                if machine.BodyComplete() then target.0 == machine && Tells(target, url, Ptrs(), entered)
                else Towards(readBuf[..], machine, Ptrs(), false, target, entered)
      ensures taken && !checkState.ContentState? ==>
                && entered && Valid() && IsCStr(readBuf[..], text, line) && text + |line| < startLine
                && var t := OnLine(machine, line);
                   if t.Stop? then target == (t.m, t.outcome)
                   else Loop(t.m, t.lineOk) == target && t.m.start == t.m.checked
    {
      hide Cut, CStrAt, IsCStr, Holds, OnLine, Status, Loop, TokensIn, ScanLine, BufferLoop, LineDone, LineText,
           UrlAfterBody, UrlRead, Towards, PointersBehind, Tells;
      ghost var b, m, p := readBuf[..], machine, Ptrs();
      line := "";
      taken := true;
      if checkState.ContentState? && lineOk {
        text := startLine;
        startLine := checkedIdx;
        TestTurn(b, m, p, target, entered);
        TestStart(b, m, p);
        machine := machine.(start := machine.checked);
      } else {
        LineSetting(b, m, p);
        ScanStops(b, m, p, lineOk, target, entered);
        line := LineText(b, m);
        if ScanLine(b, m.checked, |m.input|).status == LINE_OK {
          if m.req.state.ContentState? {
            BodyLineTurn(b, m, p, target, entered);
          } else {
            EnteredBefore(b, m, p, lineOk, target, entered);
            LineTurn(b, m, p, lineOk, target);
          }
        }
        var status;
        status, text := GetLine();
        taken := status == LINE_OK;
      }
    }

    /** A turn of the loop of `process_read`: its condition, and the line that was found. */
    method Turn(lineOk: bool, stat: string -> FileStatus, ghost target: (Machine, Outcome), ghost entered: bool)
      returns (ended: bool, ret: HttpCode, status: LineStatus)
      requires Usable() && Towards(readBuf[..], machine, Ptrs(), lineOk, target, entered)
      requires machine.checked <= |machine.input|
      modifies this`url, this`version, this`verb, this`request, this`checkState, this`linger, this`contentLength,
               this`host, this`machine, this`fileAddress, this`startLine, this`checkedIdx, readBuf, realFile
      ensures fileAddress == if ended && ret == FILE_REQUEST then Mapped else old(fileAddress)
      ensures Usable() && (old(Valid()) && (ended ==> ret == NO_REQUEST) ==> Valid())
      ensures ended ==>
                if target.1.NoRequest? then ret == NO_REQUEST && machine == target.0
                else Answers(target.0, target.1, ret, stat, entered)
      ensures !ended ==>
                && status != LINE_BAD && Towards(readBuf[..], machine, Ptrs(), status == LINE_OK, target, entered)
                && machine.checked <= |machine.input|
                && Measure(machine, status == LINE_OK) < Measure(old(machine), lineOk)
    {
      hide Cut, CStrAt, IsCStr, Holds, OnLine, Loop, TokensIn, UrlAfterBody, UrlRead, RealFile, Towards, PointersBehind,
           BufferLoop, Answers, Tells, Fits;
      var taken, text, line := NextText(lineOk, target, entered);
      if !taken {
        return true, NO_REQUEST, LINE_OPEN;
      }
      ghost var scanned := !checkState.ContentState?;
      ghost var url' := UrlAfterBody(readBuf[..], text + contentLength, Ptrs());
      ended, ret, status := HandleLine(text, line, stat);
      if ended {
        if !scanned {
          BodyEnds(target, url', ret, stat, entered);
        }
      } else {
        if scanned {
          OnTheWay(readBuf[..], machine, Ptrs());
        }
        InBounds();
      }
    }

    /** `process_read`, on any buffer. Where the buffer holds what the parser expects, this is the machine's
        own call. */
    method ProcessRead(stat: string -> FileStatus) returns (ret: HttpCode)
      requires Usable()
      modifies this`url, this`version, this`verb, this`request, this`checkState, this`linger, this`contentLength,
               this`host, this`machine, this`fileAddress, this`startLine, this`checkedIdx, readBuf, realFile
      ensures fileAddress == if ret == FILE_REQUEST then Mapped else old(fileAddress)
      ensures var (n, o) := ProcessBuffer(old(readBuf[..]), old(machine), old(Ptrs()));
              if o.NoRequest? then ret == NO_REQUEST && Usable() && machine == n
              else Answers(n, o, ret, stat, !old(checkState).ContentState?)
      ensures old(Valid()) && ret == NO_REQUEST ==> Valid()
      ensures old(Valid()) && (old(checkState).ContentState? ==> old(contentLength) >= 0) ==>
                ProcessBuffer(old(readBuf[..]), old(machine), old(Ptrs())) == Process(old(machine))
    {
      hide Cut, CStrAt, IsCStr, Holds, OnLine, Loop, TokensIn, UrlAfterBody, UrlRead, RealFile, Towards, PointersBehind,
           BufferLoop, Answers, Tells, Fits, ProcessBuffer, Measure;
      ghost var target, entered := ProcessBuffer(readBuf[..], machine, Ptrs()), !checkState.ContentState?;
      Setting(readBuf[..], machine, Ptrs());
      ProcessBufferIsProcess();
      var status := LINE_OK;
      while true
        invariant Usable() && status != LINE_BAD && (old(Valid()) ==> Valid()) && fileAddress == old(fileAddress)
        invariant Towards(readBuf[..], machine, Ptrs(), status == LINE_OK, target, entered)
        invariant machine.checked <= |machine.input|
        decreases Measure(machine, status == LINE_OK)
      {
        var ended;
        ended, ret, status := Turn(status == LINE_OK, stat, target, entered);
        if ended {
          return ret;
        }
      }
    }

    lemma InBounds()
      requires Usable()
      ensures machine.checked <= |machine.input|
    {
    }

    /** A call that ends in the body. */
    lemma BodyEnds(target: (Machine, Outcome), url': string, ret: HttpCode, stat: string -> FileStatus, entered: bool)
      requires Usable() && target.0 == machine && machine.req.state.ContentState?
      requires Tells(target, url', Ptrs(), entered) && ret == FileCode(stat(RealFile(url')))
      ensures Answers(target.0, target.1, ret, stat, entered)
    {
      hide RealFile, UrlRead, Fits, PointersBehind;
    }

    lemma ProcessBufferIsProcess()
      requires Usable()
      ensures Valid() && (checkState.ContentState? ==> contentLength >= 0) ==>
                ProcessBuffer(readBuf[..], machine, Ptrs()) == Process(machine)
    {
      hide BufferLoop, Loop, Holds, TokensIn;
      if Valid() && (checkState.ContentState? ==> contentLength >= 0) {
        BufferLoopIsLoop(readBuf[..], machine, Ptrs(), true);
      }
    }
  }
}
