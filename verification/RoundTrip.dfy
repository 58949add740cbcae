/** Printing a request, or the header block of a response, and reading it back. */
module RoundTrip {
  import opened BodyReads
  import opened CString
  import opened CTypes
  import opened Framing
  import opened HttpSyntax
  import opened RequestMachine

  predicate Plain(s: string) { NoEol(s) && NUL !in s }

  /** A field with a printed form that fits on one line. */
  predicate Printable(f: Field) {
    match f
    case Connection(_) => true
    case ContentLength(n) => n >= 0
    case Host(h) => Plain(h) && (h != "" ==> !IsBlank(h[0]))
    case EndOfHeaders => false
    case OtherField => false
  }

  function HeaderLine(f: Field): string
    requires Printable(f)
  {
    match f
    case Connection(keep) => "Connection:" + (" " + if keep then "keep-alive" else "close")
    case ContentLength(n) => "Content-Length:" + (" " + Decimal(n))
    case Host(h) => "Host:" + (" " + h)
  }

  lemma PrefixOf(name: string, rest: string)
    ensures HasPrefixNoCase(name + rest, name) && (name + rest)[|name|..] == rest
  {
    assert (name + rest)[..|name|] == name;
  }

  lemma OneBlank(v: string)
    requires v != "" ==> !IsBlank(v[0])
    ensures SkipBlanks(" " + v) == v
  {
    LeadingBlanksAt(" " + v, 1);
  }

  lemma NotPrefix(s: string, p: string, i: nat)
    requires i < |p| && i < |s| && ToLower(s[i]) != ToLower(p[i])
    ensures !HasPrefixNoCase(s, p)
  {
    if |p| <= |s| {
      assert s[..|p|][i] == s[i];
    }
  }

  /** One printed field reads back as itself. */
  lemma FieldRoundTrip(f: Field)
    requires Printable(f)
    ensures HeaderLine(f) != "" && HeaderField(HeaderLine(f)) == f
  {
    hide HasPrefixNoCase, SkipBlanks, Atol;
    var s := HeaderLine(f);
    match f
    case Connection(keep) =>
      var v := if keep then "keep-alive" else "close";
      PrefixOf("Connection:", " " + v);
      OneBlank(v);
    case ContentLength(n) =>
      PrefixOf("Content-Length:", " " + Decimal(n));
      NotPrefix(s, "Connection:", 3);
      OneBlank(Decimal(n));
      AtolOfDecimal(n);
    case Host(h) =>
      PrefixOf("Host:", " " + h);
      NotPrefix(s, "Connection:", 0);
      NotPrefix(s, "Content-Length:", 0);
      OneBlank(h);
  }

  lemma HeaderLinePlain(f: Field)
    requires Printable(f)
    ensures Plain(HeaderLine(f))
  {
    match f
    case Connection(_) =>
    case ContentLength(n) => DigitsPlain(Decimal(n));
    case Host(_) =>
  }

  lemma DigitsPlain(s: string)
    requires forall i :: 0 <= i < |s| ==> IsDigit(s[i])
    ensures Plain(s)
  {
  }

  function HeaderLines(fs: seq<Field>): (ls: seq<string>)
    requires forall i :: 0 <= i < |fs| ==> Printable(fs[i])
    ensures |ls| == |fs|
  {
    if fs == [] then [] else [HeaderLine(fs[0])] + HeaderLines(fs[1..])
  }

  function WithFields(q: Request, fs: seq<Field>): (r: Request)
    decreases |fs|
  {
    if fs == [] then q else WithFields(WithField(q, fs[0]), fs[1..])
  }

  /** The last Content-Length and the last Host among fields. */
  function LengthOf(fs: seq<Field>, default: CInt): CInt {
    if fs == [] then default
    else if fs[|fs| - 1].ContentLength? then fs[|fs| - 1].length
    else LengthOf(fs[..|fs| - 1], default)
  }

  function HostOf(fs: seq<Field>, default: Option<string>): Option<string> {
    if fs == [] then default
    else if fs[|fs| - 1].Host? then Some(fs[|fs| - 1].host)
    else HostOf(fs[..|fs| - 1], default)
  }

  lemma {:induction false} WithFieldsAppend(q: Request, fs: seq<Field>, f: Field)
    ensures WithFields(q, fs + [f]) == WithField(WithFields(q, fs), f)
    decreases |fs|
  {
    if fs == [] {
      assert WithFields(q, [f]) == WithFields(WithField(q, f), [f][1..]);
    } else {
      assert (fs + [f])[1..] == fs[1..] + [f];
      WithFieldsAppend(WithField(q, fs[0]), fs[1..], f);
    }
  }

  lemma {:induction false} FieldsSummary(q: Request, fs: seq<Field>)
    ensures WithFields(q, fs) == q.(contentLength := LengthOf(fs, q.contentLength), host := HostOf(fs, q.host),
                                    linger := q.linger || Connection(true) in fs)
    decreases |fs|
  {
    if fs == [] {
    } else {
      var init, f := fs[..|fs| - 1], fs[|fs| - 1];
      assert fs == init + [f];
      FieldsSummary(q, init);
      WithFieldsAppend(q, init, f);
    }
  }

  /** The printed lines are plain, none is empty, and folding them is folding the fields. */
  lemma {:induction false} HeaderLinesRoundTrip(q: Request, fs: seq<Field>)
    requires forall i :: 0 <= i < |fs| ==> Printable(fs[i])
    ensures var ls := HeaderLines(fs);
            && (forall i :: 0 <= i < |ls| ==> Plain(ls[i]) && ls[i] != "")
            && WithHeaders(q, ls) == WithFields(q, fs)
    decreases |fs|
  {
    if fs == [] {
    } else {
      hide HeaderLine, HeaderField, WithField;
      FieldRoundTrip(fs[0]);
      HeaderLinePlain(fs[0]);
      HeaderLinesRoundTrip(WithField(q, fs[0]), fs[1..]);
      var ls := HeaderLines(fs);
      assert ls[1..] == HeaderLines(fs[1..]);
    }
  }

  /** A request target: a path, or an absolute form with an authority in front of it. */
  datatype Target = OriginForm(path: string) | AbsoluteForm(authority: string, path: string)

  predicate GoodTarget(t: Target) {
    && t.path != "" && t.path[0] == '/' && Plain(t.path) && NoBlank(t.path)
    && (t.AbsoluteForm? ==> Plain(t.authority) && NoBlank(t.authority) && '/' !in t.authority)
  }

  function TargetText(t: Target): string {
    match t
    case OriginForm(path) => path
    case AbsoluteForm(authority, path) => HTTP_SCHEME + (authority + path)
  }

  lemma TargetRoundTrip(t: Target)
    requires GoodTarget(t)
    ensures TargetPath(TargetText(t)) == Some(t.path)
    ensures Plain(TargetText(t)) && NoBlank(TargetText(t))
  {
    match t
    case OriginForm(path) =>
      NotPrefix(path, HTTP_SCHEME, 0);
    case AbsoluteForm(authority, path) =>
      var rest := authority + path;
      PrefixOf(HTTP_SCHEME, rest);
      SlashAt(rest, |authority|);
      assert rest[|authority|..] == path;
  }

  datatype Message = Message(verb: Method, target: Target, fields: seq<Field>)

  predicate GoodMessage(m: Message) {
    GoodTarget(m.target) && forall i :: 0 <= i < |m.fields| ==> Printable(m.fields[i])
  }

  function StartLine(m: Message): string {
    MethodName(m.verb) + " " + TargetText(m.target) + " " + HTTP_VERSION
  }

  function MessageLines(m: Message): seq<string>
    requires GoodMessage(m)
  {
    [StartLine(m)] + HeaderLines(m.fields) + [""]
  }

  /** The fields the parser has to end with. */
  function Meaning(m: Message): Request {
    WithFields(INITIAL.(state := HeaderState, verb := m.verb, url := Some(m.target.path), version := Some(HTTP_VERSION)),
               m.fields)
  }

  /** These, field by field. */
  lemma MeaningIs(m: Message)
    ensures Meaning(m) == Request(HeaderState, m.verb, Some(m.target.path), Some("HTTP/1.1"), HostOf(m.fields, None),
                                  LengthOf(m.fields, 0), Connection(true) in m.fields)
  {
    FieldsSummary(INITIAL.(state := HeaderState, verb := m.verb, url := Some(m.target.path), version := Some(HTTP_VERSION)),
                  m.fields);
  }

  lemma Differ(a: string, b: string, i: nat)
    requires i < |a| && i < |b| && ToLower(a[i]) != ToLower(b[i])
    ensures !EqNoCase(a, b)
  {
  }

  lemma MethodNameOf(m: Method)
    ensures MethodOf(MethodName(m)) == Some(m)
  {
    match m
    case GET =>
    case HEAD =>
    case POST => Differ("POST", "HEAD", 0);
    case PUT => Differ("PUT", "GET", 0);
    case DELETE =>
    case TRACE =>
    case OPTIONS =>
    case CONNECT => Differ("CONNECT", "OPTIONS", 0);
    case PATCH => Differ("PATCH", "TRACE", 0);
  }

  lemma StartLineRoundTrip(m: Message)
    requires GoodMessage(m)
    ensures RequestLine(StartLine(m)) == GoodLine(m.verb, m.target.path, HTTP_VERSION)
    ensures Plain(StartLine(m))
  {
    hide MethodOf, TargetPath, TargetText, GoodTarget, RequestLine, IsRequestLine;
    TargetRoundTrip(m.target);
    MethodNameOf(m.verb);
    PartsOfLine(StartLine(m), MethodName(m.verb), " ", TargetText(m.target), " ", HTTP_VERSION,
                GoodLine(m.verb, m.target.path, HTTP_VERSION));
    RequestLineOfTokens(StartLine(m), MethodName(m.verb), " ", TargetText(m.target), " ", HTTP_VERSION,
                        GoodLine(m.verb, m.target.path, HTTP_VERSION));
  }

  lemma LinesOfPlain(ls: seq<string>, more: seq<string>)
    requires forall i :: 0 <= i < |ls| ==> Plain(ls[i])
    ensures Lines(ls + more) == ls + Lines(more)
  {
    forall i | 0 <= i < |ls|
      ensures Lines(ls + more)[i] == ls[i]
    {
      assert (ls + more)[i] == ls[i];
    }
  }

  lemma {:induction false} EmptyAt(ls: seq<string>, more: seq<string>)
    requires forall i :: 0 <= i < |ls| ==> ls[i] != ""
    ensures FirstEmpty(ls + [""] + more) == |ls|
  {
    var all := ls + [""] + more;
    if ls == [] {
    } else {
      assert all[1..] == ls[1..] + [""] + more;
      EmptyAt(ls[1..], more);
    }
  }

  /** The meaning of an input whose lines are known up to the empty one. */
  lemma InterpretLines(input: string, first: string, hs: seq<string>, more: seq<string>)
    requires Lines(Split(input).0) == [first] + (hs + [""] + more)
    requires RequestLine(first).GoodLine? && forall i :: 0 <= i < |hs| ==> hs[i] != ""
    ensures |hs| + 2 <= |Split(input).0|
    ensures var q := WithHeaders(WithRequestLine(INITIAL, RequestLine(first)), hs);
            var url := RequestLine(first).url;
            Interpret(input) ==
            if ExpectsBody(q) then
              (q.(state := ContentState),
               if |input| - |Unlines(Split(input).0[..|hs| + 2])| >= q.contentLength then Respond(url) else NoRequest)
            else (q, Respond(url))
  {
    hide RequestLine, HeaderField, WithField, Split, Unlines, FirstEmpty, Cut, Lines, LastLength, LastHost, KeepsAlive,
         WithHeaders;
    var all := Lines(Split(input).0);
    assert all[1..] == hs + [""] + more;
    EmptyAt(hs, more);
    assert all[1..|hs| + 1] == hs;
    HeadersSummary(WithRequestLine(INITIAL, RequestLine(first)), hs);
  }

  lemma MessageFraming(m: Message, body: string)
    requires GoodMessage(m)
    ensures var input, ls := Unlines(MessageLines(m)) + body, MessageLines(m);
            && Split(input).0 == ls + Split(body).0
            && Lines(Split(input).0) == [StartLine(m)] + (HeaderLines(m.fields) + [""] + Lines(Split(body).0))
  {
    hide StartLine, Split, Unlines, Cut, HeaderLines, Plain, Lines;
    AllPlain(m);
    SplitOfUnlines(MessageLines(m), body);
    LinesOfPlain(MessageLines(m), Split(body).0);
  }

  /** A body is awaited for every method but GET and HEAD, unless the last length is zero. */
  predicate Awaits(m: Message) {
    m.verb in {POST, PUT, DELETE, TRACE, OPTIONS, CONNECT, PATCH} && LengthOf(m.fields, 0) != 0
  }

  lemma AwaitsExactly(m: Message)
    ensures ExpectsBody(Meaning(m)) <==> Awaits(m)
  {
    MeaningIs(m);
  }

  /** Round trip: every printed request is understood as the message it was printed from, whatever its
      fields and their order, and its body is framed by the last Content-Length. */
  lemma RequestRoundTrip(m: Message, body: string)
    requires GoodMessage(m)
    ensures Interpret(Unlines(MessageLines(m)) + body) ==
            (Request(if Awaits(m) then ContentState else HeaderState, m.verb, Some(m.target.path), Some("HTTP/1.1"),
                     HostOf(m.fields, None), LengthOf(m.fields, 0), Connection(true) in m.fields),
             if Awaits(m) && |body| < LengthOf(m.fields, 0) then NoRequest else Respond(m.target.path))
    ensures var q, r := Meaning(m), Interpret(Unlines(MessageLines(m)) + body);
            if ExpectsBody(q) then
              r == (q.(state := ContentState), if |body| >= q.contentLength then Respond(m.target.path) else NoRequest)
            else r == (q, Respond(m.target.path))
  {
    hide StartLine, RequestLine, HeaderField, WithField, Split, Unlines, Lines, HeaderLines, WithHeaders, WithFields,
         Interpret, Plain, MethodName, ExpectsBody, Awaits, LengthOf, HostOf;
    var hs, ls := HeaderLines(m.fields), MessageLines(m);
    var input := Unlines(ls) + body;
    StartLineRoundTrip(m);
    HeaderLinesRoundTrip(WithRequestLine(INITIAL, RequestLine(StartLine(m))), m.fields);
    MessageFraming(m, body);
    InterpretLines(input, StartLine(m), hs, Lines(Split(body).0));
    assert Split(input).0[..|hs| + 2] == ls;
    MeaningIs(m);
    AwaitsExactly(m);
  }

  lemma AllPlain(m: Message)
    requires GoodMessage(m)
    ensures forall i :: 0 <= i < |MessageLines(m)| ==> Plain(MessageLines(m)[i]) && NoEol(MessageLines(m)[i])
  {
    hide StartLine, HeaderLines, RequestLine;
    StartLineRoundTrip(m);
    HeaderLinesRoundTrip(INITIAL, m.fields);
  }

  /** A printed request without a body is answered as itself, in however many reads it arrives. */
  lemma PrintedRequestInReads(m: Message, chunks: seq<string>)
    requires GoodMessage(m) && !ExpectsBody(Meaning(m)) && Concat(chunks) == Unlines(MessageLines(m))
    ensures Feed(Initial(""), chunks).0.req == Meaning(m)
    ensures Feed(Initial(""), chunks).1 == Respond(m.target.path)
  {
    hide Feed, Loop, Interpret, Unlines, WithFields, MessageLines;
    var text := Unlines(MessageLines(m));
    assert text + "" == text;
    RequestRoundTrip(m, "");
    MeaningState(m);
    ProcessIsInterpret(text);
    ChunkIndependence(chunks);
  }

  lemma MeaningState(m: Message)
    ensures Meaning(m).state == HeaderState
  {
    WithFieldsState(INITIAL.(state := HeaderState, verb := m.verb, url := Some(m.target.path), version := Some(HTTP_VERSION)),
                    m.fields);
  }

  lemma {:induction false} WithFieldsState(q: Request, fs: seq<Field>)
    ensures WithFields(q, fs).state == q.state
    decreases |fs|
  {
    if fs == [] {
    } else {
      WithFieldsState(WithField(q, fs[0]), fs[1..]);
    }
  }

  /** The lines of a message are the head of any input that goes on with its body. */
  lemma MessageBodyStart(m: Message)
    requires GoodMessage(m)
    ensures BodyStartOf(Unlines(MessageLines(m))) == |Unlines(MessageLines(m))|
  {
    hide StartLine, HeaderLines, Unlines, Split, FirstEmpty, Lines, Plain;
    var ls := MessageLines(m);
    var text, hs := Unlines(ls), HeaderLines(m.fields);
    assert text + "" == text;
    MessageFraming(m, "");
    SplitNothing();
    assert ls + [] == ls;
    HeaderLinesRoundTrip(INITIAL, m.fields);
    var rest := hs + [""] + Lines([]);
    assert ([StartLine(m)] + rest)[1..] == rest;
    EmptyAt(hs, Lines([]));
    assert ls[..|hs| + 2] == ls;
  }

  lemma SplitNothing()
    ensures Split("").0 == []
  {
  }

  /** A POST whose two-byte body arrives one byte at a time is never answered, though both bytes are there;
      in one read it is. */
  lemma BodyByteByByte()
    ensures var head := Unlines(MessageLines(Message(POST, OriginForm("/"), [ContentLength(2)])));
            && AnswerIn([head, "ab"]) == Respond("/")
            && AnswerIn([head, "a", "b"]) == NoRequest
  {
    hide Interpret, Unlines, HeaderLine, StartLine, AnswerIn, BodyStartOf, Consumed;
    var m := Message(POST, OriginForm("/"), [ContentLength(2)]);
    var head := Unlines(MessageLines(m));
    assert m.fields[1..] == [];
    assert Meaning(m) == Request(HeaderState, POST, Some("/"), Some(HTTP_VERSION), None, 2, false);
    assert head + "" == head;
    RequestRoundTrip(m, "");
    MessageBodyStart(m);
    HeadSmall(m);
    OneByte();
    assert "a" + "b" == "ab";
    BodyAfterHead(head, "a", "b");
  }

  lemma OneByte()
    ensures Consumed("a") == 1
  {
    assert PlainLength("a") == 1;
  }

  lemma HeadSmall(m: Message)
    requires m == Message(POST, OriginForm("/"), [ContentLength(2)])
    ensures |Unlines(MessageLines(m))| <= 100
  {
    hide StartLine;
    StartShort();
    assert m.fields[1..] == [];
    var ls := MessageLines(m);
    assert HeaderLines(m.fields) == [HeaderLine(ContentLength(2))];
    assert ls == [StartLine(m)] + ([HeaderLine(ContentLength(2))] + ([""] + []));
    UnlinesCons("", [], "");
    UnlinesCons(HeaderLine(ContentLength(2)), [""] + [], "");
    UnlinesCons(StartLine(m), [HeaderLine(ContentLength(2))] + ([""] + []), "");
  }

  lemma StartShort()
    ensures |StartLine(Message(POST, OriginForm("/"), [ContentLength(2)]))| <= 20
  {
  }
}
