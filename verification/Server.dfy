/** Requests on a connection, from their reads to their replies: `CJob::process` and the read callback. */
module Server {
  import opened BodyReads
  import opened CString
  import opened CTypes
  import Framing
  import opened HttpSyntax
  import opened RequestMachine
  import opened ReadBuffer
  import opened Job
  import opened RoundTrip
  import R = Reply

  /** Take in a read behind the others and call `process_read`. */
  method ReadAndProcess(job: Job, chunk: string, stat: string -> FileStatus) returns (ret: HttpCode)
    requires job.Valid() && |chunk| <= READ_BUFFER_SIZE - job.readIdx
    requires job.checkState.ContentState? ==> job.contentLength >= 0
    modifies job, job.readBuf, job.realFile
    ensures old(job.machine).Receive(chunk).Valid()
    ensures var (n, o) := Process(old(job.machine).Receive(chunk));
            if o.NoRequest? then
              && ret == NO_REQUEST && job.Valid() && job.machine == n
              && (job.checkState.ContentState? ==> job.contentLength >= 0)
            else ret != NO_REQUEST && job.Answers(n, o, ret, stat, true)
  {
    hide Process, UrlRead, RealFile, ProcessBuffer, Holds, TokensIn;
    ReceiveValid(job.machine, chunk);
    job.Read(chunk);
    BodyWanted(job.machine);
    ghost var m := job.machine;
    ret := job.ProcessRead(stat);
    ghost var (n, o) := Process(m);
    if o.Respond? && m.req.state.ContentState? {
      SameBody(m);
      UrlWhole(n, o.url, job.url.value);
    }
  }

  lemma SameBody(m: Machine)
    requires m.Valid() && m.req.state.ContentState?
    ensures Process(m).0.req == m.req
  {
  }

  /** Feed the reads of one request to a fresh parser, calling `process_read` after each, until there is
      an answer. Short of a body, the answer is what the whole input means, however it was cut; with a body
      there is one if and only if some read completes the body. */
  method Serve(job: Job, chunks: seq<string>, stat: string -> FileStatus) returns (ret: HttpCode)
    requires job.Valid() && job.machine == Initial("") && |Concat(chunks)| <= READ_BUFFER_SIZE
    modifies job, job.readBuf, job.realFile
    ensures var (n, o) := Feed(Initial(""), chunks);
            if o.NoRequest? then ret == NO_REQUEST && job.Valid() && job.machine == n
            else job.Answers(n, o, ret, stat, true)
    ensures var (q, o) := Interpret(Concat(chunks));
            && (!q.state.ContentState? ==> ret == OutcomeCode(o, stat))
            && (q.state.ContentState? ==>
                  (ret != NO_REQUEST <==> SomeReadOf(chunks, BodyStartOf(Concat(chunks)), q.contentLength)))
  {
    hide Process, Feed, Interpret, BodyStartOf, SomeReadOf, UrlRead, RealFile, Holds, TokensIn;
    ret := NO_REQUEST;
    var i := 0;
    while i < |chunks|
      invariant i <= |chunks| && job.Valid() && ret == NO_REQUEST
      invariant job.machine.req.state.ContentState? ==> job.machine.req.contentLength >= 0
      invariant Feed(Initial(""), chunks) == Feed(job.machine, chunks[i..])
      invariant |job.machine.input| + |Concat(chunks[i..])| == |Concat(chunks)|
    {
      FeedOne(job.machine, chunks[i..]);
      ret := ReadAndProcess(job, chunks[i], stat);
      assert chunks[i..][1..] == chunks[i + 1..];
      i := i + 1;
      if ret != NO_REQUEST {
        AnswerOfWhole(chunks);
        ghost var (n, o) := Feed(Initial(""), chunks);
        if o.Respond? && !n.req.state.ContentState? {
          UrlWhole(n, o.url, job.url.value);
        }
        return;
      }
    }
    FeedNone(job.machine);
    AnswerOfWhole(chunks);
  }

  /** A call that ends in a body without an answer has a length to wait for. */
  lemma BodyWanted(m: Machine)
    requires m.Valid() && |m.input| <= READ_BUFFER_SIZE
    ensures var (n, o) := Process(m); o.NoRequest? && n.req.state.ContentState? ==> n.req.contentLength >= 0
  {
    hide Loop, Entry, Consumed;
    ProcessFromEntry(m);
    if Entry(m).req.state.ContentState? {
      BodyCall(Entry(m));
    }
  }

  lemma FeedOne(m: Machine, chunks: seq<string>)
    requires m.Valid() && chunks != []
    ensures m.Receive(chunks[0]).Valid()
    ensures var (n, o) := Process(m.Receive(chunks[0]));
            n.input == m.input + chunks[0] && n.Valid() &&
            Feed(m, chunks) == if o.NoRequest? then Feed(n, chunks[1..]) else (n, o)
    ensures Concat(chunks) == chunks[0] + Concat(chunks[1..])
  {
    hide Loop;
  }

  lemma FeedNone(m: Machine)
    requires m.Valid()
    ensures Feed(m, []) == (m, NoRequest)
  {
  }

  lemma AnswerOfWhole(chunks: seq<string>)
    requires |Concat(chunks)| <= READ_BUFFER_SIZE
    ensures var (q, o) := Interpret(Concat(chunks));
            if q.state.ContentState? then
              Feed(Initial(""), chunks).1.NoRequest? <==> !SomeReadOf(chunks, BodyStartOf(Concat(chunks)), q.contentLength)
            else Feed(Initial(""), chunks).1 == o && Feed(Initial(""), chunks).0.req == q
  {
    hide Loop, Feed, Interpret, BodyStartOf, SomeReadOf, Overflows;
    if Interpret(Concat(chunks)).0.state.ContentState? {
      BodyInReads(chunks);
    } else {
      ProcessIsInterpret(Concat(chunks));
      NoOverflow(Concat(chunks));
      ChunkIndependence(chunks);
    }
  }

  lemma NoOverflow(input: string)
    ensures !Interpret(input).0.state.ContentState? ==> !Overflows(input)
  {
    hide Interpret;
  }

  // ----- One read event -----

  /** The live read callback and `process_read`, in any state: the result of the loop on what then stands in
      the buffer. */
  method ReadEvent(job: Job, chunk: string, stat: string -> FileStatus) returns (ret: HttpCode)
    requires job.Usable() && |chunk| <= READ_BUFFER_SIZE - job.readIdx
    modifies job, job.readBuf, job.realFile
    ensures var (b, m) := (Overlaid(old(job.readBuf[..]), chunk), old(job.machine).Receive(chunk));
            && Fits(b, m) && PointersBehind(old(job.Ptrs()), m.req, m.start)
            && var (n, o) := ProcessBuffer(b, m, old(job.Ptrs()));
               if o.NoRequest? then ret == NO_REQUEST && job.Usable() && job.machine == n
               else ret != NO_REQUEST && job.Answers(n, o, ret, stat, !old(job.checkState).ContentState?)
  {
    hide ProcessBuffer, UrlRead, RealFile, Overlaid, TokensIn, Holds;
    job.GetReadBuffer(chunk);
    ret := job.ProcessRead(stat);
  }

  // ----- One call of process -----

  const PAGE_SIZE := 4096

  /** What a file is mapped to: zeros fill up its last page. */
  function Mapping(content: string): string {
    content + seq(Padding(|content|), _ => NUL)
  }

  function Padding(n: nat): (k: nat)
    ensures k < PAGE_SIZE && (n + k) % PAGE_SIZE == 0
  {
    if n % PAGE_SIZE == 0 then 0 else PAGE_SIZE - n % PAGE_SIZE
  }

  /** Whether `strlen` stops inside a mapped file. */
  predicate StopsInside(content: string) {
    NUL in Mapping(content)
  }

  lemma PaddingExactly(n: nat)
    ensures Padding(n) > 0 <==> n % 4096 != 0
  {
  }

  /** It does at a NUL in the file, or at the zeros behind it; what is in front is the same in both cases. */
  lemma StopsExactly(content: string)
    ensures StopsInside(content) <==> NUL in content || |content| % 4096 != 0
    ensures Cut(Mapping(content)) == Cut(content)
  {
    hide Padding, Cut;
    PaddingExactly(|content|);
    var zeros := seq(Padding(|content|), _ => NUL);
    if |zeros| > 0 {
      assert zeros[0] == NUL;
    }
    ZerosCut(content, zeros);
  }

  lemma {:induction false} ZerosCut(s: string, zeros: string)
    requires forall i :: 0 <= i < |zeros| ==> zeros[i] == NUL
    ensures Cut(s + zeros) == Cut(s)
    decreases |s|
  {
    if s == "" {
      assert "" + zeros == zeros;
    } else {
      assert (s + zeros)[1..] == s[1..] + zeros;
      ZerosCut(s[1..], zeros);
    }
  }

  /** What is sent for a code when text is already in the write buffer, and whether the connection is closed:
      exactly when the body of an error response does not fit, or the file is empty. Behind the head of a file
      goes what is in front of its first NUL. */
  ghost predicate Sends(text: string, code: HttpCode, keep: bool, content: string, sent: string, closed: bool)
    requires |content| <= INT_MAX && |text| <= R.CAPACITY
  {
    && (R.IsError(code) ==>
          var head := R.ErrorHead(text, code, keep);
          && closed == (|head| + |R.ErrorForm(code)| > R.CAPACITY)
          && (!closed ==> sent == head + R.ErrorForm(code)))
    && (code == FILE_REQUEST ==>
          && closed == (content == "")
          && (!closed ==> sent == R.HeadShown(text, 200, "OK", |content|, keep) + Cut(content)))
  }

  /** The response to a request with this code. */
  function Response(code: HttpCode, keep: bool, content: string): string
    requires |content| <= INT_MAX
  {
    if R.IsError(code) then R.ErrorResponse(code, keep) else R.Head(200, "OK", |content|, keep) + Cut(content)
  }

  /** Behind what is already in the write buffer, a response that fits is sent after it, whole: a client that
      was answered before on this connection gets the earlier bytes again. Of the head of a file some pieces may
      not fit, and the connection stays open; an error response whose body does not fit closes it. */
  lemma SentBehind(text: string, code: HttpCode, keep: bool, content: string, sent: string, closed: bool)
    requires |content| <= INT_MAX && |text| <= R.CAPACITY && (R.IsError(code) || code == FILE_REQUEST)
    requires Sends(text, code, keep, content, sent, closed)
    ensures R.IsError(code) && |text| + |R.ErrorResponse(code, keep)| <= R.CAPACITY ==>
              !closed && sent == text + Response(code, keep, content)
    ensures R.IsError(code) && |text| + |R.ErrorForm(code)| > R.CAPACITY ==> closed
    ensures code == FILE_REQUEST && content != "" && |text| + |R.Head(200, "OK", |content|, keep)| <= R.CAPACITY ==>
              !closed && sent == text + Response(code, keep, content)
  {
    hide Cut, R.ErrorForm, R.ErrorResponse, R.HeadOffered, R.HeadShown, R.Head;
    if R.IsError(code) {
      if |text| + |R.ErrorResponse(code, keep)| <= R.CAPACITY {
        R.ResponseFits(text, code, keep);
      }
      R.HeadGrows(text, code, keep);
    } else if |text| + |R.Head(200, "OK", |content|, keep)| <= R.CAPACITY {
      R.HeadShownFits(text, 200, "OK", |content|, keep);
      R.JoinThree(text, R.Head(200, "OK", |content|, keep), Cut(content));
    }
  }

  /** `write`: the write buffer and the mapped file are sent up to their first NUL; sending is returning the
      bytes. Without a mapped file `strlen` is applied to a pointer that is unset or zero, which is undefined;
      what is returned then, and the state, are those without that call. */
  method Write(job: Job, reply: R.Reply, content: string) returns (sent: string, restarted: bool, ghost defined: bool)
    requires job.Usable() && reply.Valid()
    requires job.readBuf != reply.writeBuf && job.realFile != reply.writeBuf
    modifies job, job.readBuf, job.realFile, reply, reply.writeBuf
    ensures defined == (old(job.fileAddress).Mapped? && StopsInside(content))
    ensures sent == old(reply.shown) + (if old(job.fileAddress).Mapped? then Cut(content) else "")
    ensures job.fileAddress == Null && restarted == old(job.linger)
    ensures if restarted then job.Valid() && job.machine == Initial("") && reply.Empty()
            else
              && job.Usable() && (old(job.Valid()) ==> job.Valid()) && job.machine == old(job.machine)
              && reply.Valid() && reply.shown == old(reply.shown)
  {
    hide Cut, IsCStr, Holds, TokensIn;
    sent := reply.Sent();
    defined := job.fileAddress.Mapped? && StopsInside(content);
    if job.fileAddress.Mapped? {
      sent := sent + Cut(content);
    }
    job.Unmap();
    restarted := job.linger;
    if restarted {
      job.Init();
      reply.Init();
    }
  }

  /** What `process_write` has left decides what is sent. */
  lemma Verdict(text: string, code: HttpCode, keep: bool, content: string, printed: bool, shown: string)
    requires |content| <= INT_MAX && |text| <= R.CAPACITY
    requires R.IsError(code) ==>
               var head := R.ErrorHead(text, code, keep);
               && printed == (|head| + |R.ErrorForm(code)| <= R.CAPACITY)
               && (printed ==> shown == head + R.ErrorForm(code))
    requires code == FILE_REQUEST ==>
               && printed == (content != "") && (printed ==> shown == R.HeadShown(text, 200, "OK", |content|, keep))
    ensures Sends(text, code, keep, content,
                  if !printed then "" else shown + if code == FILE_REQUEST then Cut(content) else "", !printed)
    ensures code == FILE_REQUEST && !printed ==> !StopsInside(content)
  {
    hide Cut, R.ErrorHead, R.ErrorForm, R.HeadShown;
  }

  /** `process_write` and `write`. If the first fails, the source goes on with a connection that is gone. */
  method SendReply(job: Job, reply: R.Reply, code: HttpCode, content: string)
    returns (sent: string, restarted: bool, closed: bool, ghost defined: bool)
    requires job.Usable() && reply.Valid() && |content| <= INT_MAX && job.fileAddress.Mapped? == (code == FILE_REQUEST)
    requires job.readBuf != reply.writeBuf && job.realFile != reply.writeBuf
    modifies job, job.readBuf, job.realFile, reply, reply.writeBuf
    ensures Sends(old(reply.text), code, old(job.linger), content, sent, closed)
    ensures defined == (code == FILE_REQUEST && StopsInside(content))
    ensures restarted == (old(job.linger) && !closed) && (!closed ==> job.fileAddress == Null)
    ensures if restarted then job.Valid() && job.machine == Initial("") && reply.Empty()
            else
              && job.Usable() && (old(job.Valid()) ==> job.Valid()) && job.machine == old(job.machine) && reply.Valid()
              && (!closed ==> sent == reply.shown + if code == FILE_REQUEST then Cut(content) else "")
  {
    hide Cut, TokensIn, Holds, Fits, PointersBehind, R.ErrorHead, R.ErrorForm, R.Head, R.HeadOffered, R.HeadShown, R.Offer,
         R.Showing, Sends, StopsInside;
    ghost var t := reply.text;
    var printed := reply.ProcessWrite(code, job.linger, |content|);
    Verdict(t, code, job.linger, content, printed, reply.shown);
    sent, restarted, closed, defined := "", false, !printed, false;
    if printed {
      sent, restarted, defined := Write(job, reply, content);
    }
  }

  /** `process`: parse what has been read; for an answer, build the reply behind what the write buffer holds
      and send the buffer. The connection is closed exactly when `process_write` fails: when the body of an
      error response does not fit behind the earlier ones, or the file is empty; then nothing is claimed to be
      sent. What the sending step returns is ignored: without keep-alive the connection stays open, and neither
      the parser nor the write buffer is reset, so that the next reply is sent behind this one. Between calls
      no file is mapped, so a call that answers is defined if and only if it has found a file, not empty, in
      which `strlen` stops; for an error code, what is sent and whether the connection starts over are stated
      as if the one undefined call of `write` were skipped. */
  method RunJob(job: Job, reply: R.Reply, stat: string -> FileStatus, content: string)
    returns (sent: string, restarted: bool, closed: bool, code: HttpCode, ghost at: nat, ghost defined: bool)
    requires job.Usable() && reply.Valid() && |content| <= INT_MAX && !job.fileAddress.Mapped?
    requires job.readBuf != reply.writeBuf && job.realFile != reply.writeBuf
    modifies job, job.readBuf, job.realFile, reply, reply.writeBuf
    ensures var (n, o) := ProcessBuffer(old(job.readBuf[..]), old(job.machine), old(job.Ptrs()));
            var (t, keep) := (old(reply.text), n.req.linger);
            if o.NoRequest? then
              && defined && sent == "" && !restarted && !closed && job.fileAddress == old(job.fileAddress)
              && job.Usable() && job.machine == n && (old(job.Valid()) ==> job.Valid())
              && reply.Valid() && reply.text == t && reply.shown == old(reply.shown)
            else
              && (o.Malformed? ==> code == BAD_REQUEST)
              && (o.Respond? ==>
                    code == FileCode(stat(RealFile(if old(job.checkState).ContentState? then o.url else UrlRead(n, o.url, at)))))
              && Sends(t, code, keep, content, sent, closed)
              && defined == (code == FILE_REQUEST && StopsInside(content))
              && (!closed ==> job.fileAddress == Null)
              && restarted == (keep && !closed)
              && (if restarted then job.Valid() && job.machine == Initial("") && reply.Empty()
                  else
                    && job.Usable() && job.machine == n && (o.Malformed? || !n.req.state.ContentState? ==> job.Valid())
                    && reply.Valid()
                    && (!closed ==> sent == reply.shown + if code == FILE_REQUEST then Cut(content) else ""))
  {
    hide ProcessBuffer, UrlRead, RealFile, Sends, TokensIn, Holds, Cut, StopsInside;
    code := job.ProcessRead(stat);
    at := if job.url.Some? then job.url.value else 0;
    if code == NO_REQUEST {
      return "", false, false, code, at, true;
    }
    sent, restarted, closed, defined := SendReply(job, reply, code, content);
  }

  // ----- Whole conversations -----

  /** Keep-alive requests without bodies, each with the reads it arrives in. */
  datatype Exchange = Exchange(message: Message, chunks: seq<string>)

  ghost predicate Polite(x: Exchange) {
    && GoodMessage(x.message) && Meaning(x.message).linger && !ExpectsBody(Meaning(x.message))
    && Concat(x.chunks) == Framing.Unlines(MessageLines(x.message)) && |Concat(x.chunks)| <= READ_BUFFER_SIZE
    && forall i :: 0 <= i < |x.chunks| ==> x.chunks[i] != ""
  }

  function CodeFor(m: Message, stat: string -> FileStatus): HttpCode {
    FileCode(stat(RealFile(m.target.path)))
  }

  /** The file of a request. */
  function FileOf(m: Message, files: string -> string): string {
    files(RealFile(m.target.path))
  }

  function ReplyTo(m: Message, stat: string -> FileStatus, files: string -> string): string
    requires |FileOf(m, files)| <= INT_MAX
  {
    Response(CodeFor(m, stat), true, FileOf(m, files))
  }

  /** What a client sees, by what the file system says of the looked-up path. */
  lemma ReplyOnTheWire(m: Message, stat: string -> FileStatus, files: string -> string)
    requires |FileOf(m, files)| <= INT_MAX
    ensures var (reply, s) := (ReplyTo(m, stat, files), stat(RealFile(m.target.path)));
            && (s.Missing? ==> R.OnTheWire(reply, "HTTP/1.1 404 Not Found", "Content-Length: 49", true,
                                           "The requested file was " + "not found on this server.\n"))
            && (s.Unreadable? ==> R.OnTheWire(reply, "HTTP/1.1 403 Forbidden", "Content-Length: 57", true,
                                              "You do not have permission " + "to get file from this server.\n"))
            && (s.Directory? ==> R.OnTheWire(reply, "HTTP/1.1 400 Bad Request", "Content-Length: 68", true,
                                             "Your request has bad syntax or is " + "inherently impossible to satisfy.\n"))
            && (s.Regular? ==> R.OnTheWire(reply, "HTTP/1.1 200 OK",
                                           "Content-Length:" + (" " + Decimal(|FileOf(m, files)|)), true,
                                           Cut(FileOf(m, files))))
  {
    hide R.OnTheWire, R.ErrorResponse, R.Head, RealFile, FileOf, Cut, Decimal;
    match stat(RealFile(m.target.path))
    case Missing => R.Wire404(true);
    case Unreadable => R.Wire403(true);
    case Directory => R.Wire400(true);
    case Regular => R.Wire200(FileOf(m, files), true);
  }

  lemma FirstLineOf(reply: string, first: string, length: string, linger: bool, text: string)
    requires R.OnTheWire(reply, first, length, linger, text)
    ensures var ls := Framing.Split(reply).0;
            && |ls| >= 4 && ls[0] == first && ls[1] == length && ls[3] == ""
            && reply[|Framing.Unlines(ls[..4])|..] == text
  {
    var ls := Framing.Split(reply).0;
    assert ls[0] == ls[..4][0] && ls[1] == ls[..4][1] && ls[3] == ls[..4][3];
  }

  /** An exchange whose file, if there is one, is not empty and has a size that an `int` holds. */
  ghost predicate NotEmpty(m: Message, stat: string -> FileStatus, files: string -> string) {
    |FileOf(m, files)| <= INT_MAX && (CodeFor(m, stat) == FILE_REQUEST ==> FileOf(m, files) != "")
  }

  /** Whether the call that answers the request is defined. */
  predicate DefinedFor(m: Message, stat: string -> FileStatus, files: string -> string) {
    CodeFor(m, stat) == FILE_REQUEST && StopsInside(FileOf(m, files))
  }

  /** The answer to a printed request comes with its last byte. */
  lemma AnsweredAtEnd(x: Exchange)
    requires Polite(x)
    ensures var (n, o) := Feed(Initial(""), x.chunks);
            && o == Respond(x.message.target.path) && n.req == Meaning(x.message)
            && n.checked == |Concat(x.chunks)|
  {
    hide Feed, Loop, Interpret, WithFields, MessageLines, Framing.Unlines, BodyStartOf, GoodMessage, Concat;
    var (m, text) := (x.message, Concat(x.chunks));
    assert text + "" == text;
    RequestRoundTrip(m, "");
    MeaningState(m);
    MessageBodyStart(m);
    ProcessIsInterpret(text);
    FromNothing(text);
    FeedIsProcess(Initial(""), x.chunks);
  }

  /** What an exchange sends from an empty write buffer. */
  lemma SentToEmpty(m: Message, stat: string -> FileStatus, files: string -> string, sent: string, closed: bool)
    requires NotEmpty(m, stat, files) && Sends("", CodeFor(m, stat), true, FileOf(m, files), sent, closed)
    ensures !closed && sent == ReplyTo(m, stat, files)
  {
    hide RealFile, R.ErrorResponse, R.Head, R.ErrorHead, R.ErrorForm, R.HeadShown, Sends, Response;
    var (code, content) := (CodeFor(m, stat), FileOf(m, files));
    R.OneResponseFits(code, |content|, true);
    SentBehind("", code, true, content, sent, closed);
    assert "" + Response(code, true, content) == Response(code, true, content);
  }

  /** A read that is appended, or a live one that is the first since the start, and `process`. */
  method ReadAndRun(job: Job, reply: R.Reply, chunk: string, live: bool, stat: string -> FileStatus, content: string)
    returns (sent: string, ghost closed: bool, ghost code: HttpCode, ghost defined: bool)
    requires job.Valid() && reply.Empty() && |chunk| <= READ_BUFFER_SIZE - job.readIdx
    requires |content| <= INT_MAX && !job.fileAddress.Mapped? && (live ==> job.readIdx == 0)
    requires job.checkState.ContentState? ==> job.contentLength >= 0
    requires job.readBuf != reply.writeBuf && job.realFile != reply.writeBuf
    modifies job, job.readBuf, job.realFile, reply, reply.writeBuf
    ensures old(job.machine).Receive(chunk).Valid()
    ensures var (n, o) := Process(old(job.machine).Receive(chunk));
            && (o.NoRequest? ==>
                  && defined && sent == "" && !job.fileAddress.Mapped? && job.Valid() && job.machine == n && reply.Empty()
                  && (job.checkState.ContentState? ==> job.contentLength >= 0))
            && (o.Respond? && !n.req.state.ContentState? && n.req.linger ==>
                  && code == FileCode(stat(RealFile(o.url))) && Sends("", code, true, content, sent, closed)
                  && defined == (code == FILE_REQUEST && StopsInside(content))
                  && (!closed ==> !job.fileAddress.Mapped? && job.Valid() && job.machine == Initial("") && reply.Empty()))
  {
    hide Process, UrlRead, RealFile, ProcessBuffer, Sends, Holds, TokensIn, StopsInside, Cut;
    ReceiveValid(job.machine, chunk);
    if live {
      job.GetReadBuffer(chunk);
    } else {
      job.Read(chunk);
    }
    BodyWanted(job.machine);
    job.ProcessBufferIsProcess();
    ghost var (n, o) := Process(job.machine);
    var restarted;
    ghost var at;
    sent, restarted, closed, code, at, defined := RunJob(job, reply, stat, content);
    if o.Respond? && !n.req.state.ContentState? {
      UrlWhole(n, o.url, at);
    }
  }

  /** One exchange: `process` runs after each read; nothing is sent before the last, and then the response,
      with the proviso of `Write`: the calls are all defined exactly if a file is found in which `strlen`
      stops. The reads are appended; if there is only one, it may be a live read. */
  method Answer(job: Job, reply: R.Reply, x: Exchange, live: bool, stat: string -> FileStatus, files: string -> string)
    returns (sent: string, ghost defined: bool)
    requires job.Valid() && job.machine == Initial("") && reply.Empty() && !job.fileAddress.Mapped?
    requires job.readBuf != reply.writeBuf && job.realFile != reply.writeBuf
    requires Polite(x) && NotEmpty(x.message, stat, files) && (live ==> |x.chunks| == 1)
    modifies job, job.readBuf, job.realFile, reply, reply.writeBuf
    ensures sent == ReplyTo(x.message, stat, files) && defined == DefinedFor(x.message, stat, files)
    ensures job.Valid() && job.machine == Initial("") && reply.Empty() && !job.fileAddress.Mapped?
  {
    hide Process, Feed, Polite, RealFile, Holds, TokensIn, Sends, ReplyTo, WithFields, StopsInside, FileOf;
    AnsweredAtEnd(x);
    sent, defined := "", true;
    var i := 0;
    var content := FileOf(x.message, files);
    ghost var answered := false;
    while i < |x.chunks|
      invariant i <= |x.chunks| && job.Valid() && reply.Empty() && !job.fileAddress.Mapped?
      invariant job.checkState.ContentState? ==> job.contentLength >= 0
      invariant if answered then
                  && i == |x.chunks| && job.machine == Initial("") && sent == ReplyTo(x.message, stat, files)
                  && defined == DefinedFor(x.message, stat, files)
                else
                  && sent == "" && defined && (i == 0 ==> job.machine == Initial("")) && Feed(Initial(""), x.chunks) == Feed(job.machine, x.chunks[i..])
                  && |job.machine.input| + |Concat(x.chunks[i..])| == |Concat(x.chunks)|
    {
      RoomFor(x);
      FeedOne(job.machine, x.chunks[i..]);
      ghost var m := job.machine;
      ghost var closed, code, ok;
      var part;
      part, closed, code, ok := ReadAndRun(job, reply, x.chunks[i], live, stat, content);
      sent, defined := sent + part, defined && ok;
      assert x.chunks[i..][1..] == x.chunks[i + 1..];
      i := i + 1;
      if !Process(m.Receive(x.chunks[i - 1])).1.NoRequest? {
        LingersOn(x);
        SentToEmpty(x.message, stat, files, part, closed);
        NothingLeft(x, i);
        answered := true;
      }
    }
    if !answered {
      FeedNone(job.machine);
    }
  }

  lemma RoomFor(x: Exchange)
    requires Polite(x)
    ensures |Concat(x.chunks)| <= READ_BUFFER_SIZE
  {
  }

  lemma LingersOn(x: Exchange)
    requires Polite(x)
    ensures Meaning(x.message).linger && Meaning(x.message).state == HeaderState
  {
    MeaningState(x.message);
  }

  lemma NothingLeft(x: Exchange, i: nat)
    requires Polite(x) && i <= |x.chunks| && Concat(x.chunks[i..]) == ""
    ensures i == |x.chunks|
  {
    if i < |x.chunks| {
      SomethingLeft(x, i);
    }
  }

  lemma SomethingLeft(x: Exchange, i: nat)
    requires Polite(x) && i < |x.chunks|
    ensures Concat(x.chunks[i..]) != ""
  {
    assert x.chunks[i..][0] == x.chunks[i];
  }

  /** The responses to a sequence of requests. */
  function Replies(xs: seq<Exchange>, stat: string -> FileStatus, files: string -> string): string
    requires forall i :: 0 <= i < |xs| ==> NotEmpty(xs[i].message, stat, files)
  {
    if xs == [] then ""
    else
      assert NotEmpty(xs[|xs| - 1].message, stat, files);
      Replies(xs[..|xs| - 1], stat, files) + ReplyTo(xs[|xs| - 1].message, stat, files)
  }

  /** A conversation: any number of keep-alive requests without bodies, each in any appended reads, or in one
      live read. What is sent is exactly the responses one after the other, and at the end the connection is as
      at the start. It is defined exactly if each request finds a file in which `strlen` stops; otherwise this
      holds with the undefined calls skipped. */
  method Converse(job: Job, reply: R.Reply, xs: seq<Exchange>, live: bool, stat: string -> FileStatus,
                  files: string -> string)
    returns (sent: string, ghost defined: bool)
    requires job.Valid() && job.machine == Initial("") && reply.Empty() && !job.fileAddress.Mapped?
    requires job.readBuf != reply.writeBuf && job.realFile != reply.writeBuf
    requires forall i :: 0 <= i < |xs| ==>
               Polite(xs[i]) && NotEmpty(xs[i].message, stat, files) && (live ==> |xs[i].chunks| == 1)
    modifies job, job.readBuf, job.realFile, reply, reply.writeBuf
    ensures sent == Replies(xs, stat, files)
    ensures defined == forall i :: 0 <= i < |xs| ==> DefinedFor(xs[i].message, stat, files)
    ensures job.Valid() && job.machine == Initial("") && reply.Empty() && !job.fileAddress.Mapped?
  {
    hide Polite, RealFile, ReplyTo, Holds, TokensIn, DefinedFor, FileOf, CodeFor;
    sent, defined := "", true;
    var i := 0;
    while i < |xs|
      invariant i <= |xs| && job.Valid() && job.machine == Initial("") && reply.Empty() && !job.fileAddress.Mapped?
      invariant sent == Replies(xs[..i], stat, files)
      invariant defined == forall k :: 0 <= k < i ==> DefinedFor(xs[k].message, stat, files)
    {
      var part;
      ghost var ok;
      part, ok := Answer(job, reply, xs[i], live, stat, files);
      assert xs[..i + 1][..i] == xs[..i];
      sent, defined := sent + part, defined && ok;
      i := i + 1;
    }
    assert xs[..|xs|] == xs;
  }
}
