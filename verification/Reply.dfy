/** The response half of `CJob`: a bounded buffer that response pieces are printed into. */
module Reply {
  import opened CString
  import opened CTypes
  import opened Framing
  import opened HttpSyntax
  import opened RequestMachine
  import opened RoundTrip

  const WRITE_BUFFER_SIZE := 1024

  /** The most bytes that fit in front of the terminator: the room given to `vsnprintf` is one byte
      short of the buffer. */
  const CAPACITY := WRITE_BUFFER_SIZE - 2

  /** The buffer after `vsnprintf` printed a piece at w with all the room there is. */
  function Printed(b: string, w: nat, piece: string): (b': string)
    requires |b| == WRITE_BUFFER_SIZE
    ensures |b'| == |b|
  {
    if w > CAPACITY then b
    else
      var s := if |piece| <= CAPACITY - w then piece else piece[..CAPACITY - w];
      b[..w] + s + [NUL] + b[w + |s| + 1..]
  }

  function ErrorTitle(code: HttpCode): (s: string)
    ensures Plain(s) && |s| <= 20
  {
    match code
    case BAD_REQUEST => "Bad Request"
    case FORBIDDEN_REQUEST => "Forbidden"
    case NO_RESOURCE => "Not Found"
    case _ => "Internal Error"
  }

  const ERROR_400_FORM := "Your request has bad syntax or is " + "inherently impossible to satisfy.\n"
  const ERROR_403_FORM := "You do not have permission " + "to get file from this server.\n"
  const ERROR_404_FORM := "The requested file was " + "not found on this server.\n"
  const ERROR_500_FORM := "There was an unusual problem " + "serving the requested file.\n"

  function ErrorForm(code: HttpCode): (s: string)
    ensures |s| <= 100
  {
    match code
    case BAD_REQUEST => ERROR_400_FORM
    case FORBIDDEN_REQUEST => ERROR_403_FORM
    case NO_RESOURCE => ERROR_404_FORM
    case _ => ERROR_500_FORM
  }

  lemma Form400() ensures NUL !in ERROR_400_FORM {}
  lemma Form403() ensures NUL !in ERROR_403_FORM {}
  lemma Form404() ensures NUL !in ERROR_404_FORM {}
  lemma Form500() ensures NUL !in ERROR_500_FORM {}

  lemma FormIsText(code: HttpCode)
    ensures NUL !in ErrorForm(code)
  {
    hide ERROR_400_FORM, ERROR_403_FORM, ERROR_404_FORM, ERROR_500_FORM;
    Form400();
    Form403();
    Form404();
    Form500();
  }

  function ErrorStatus(code: HttpCode): nat {
    match code
    case BAD_REQUEST => 400
    case FORBIDDEN_REQUEST => 403
    case NO_RESOURCE => 404
    case _ => 500
  }

  predicate IsError(code: HttpCode) {
    code == INTERNAL_ERROR || code == BAD_REQUEST || code == NO_RESOURCE || code == FORBIDDEN_REQUEST
  }

  function StatusLine(status: nat, title: string): string {
    HTTP_VERSION + " " + Decimal(status) + " " + title
  }

  /** The fields every response carries. */
  function ReplyFields(length: CInt, linger: bool): (fs: seq<Field>)
    ensures |fs| == 2 && (length >= 0 ==> forall i :: 0 <= i < |fs| ==> Printable(fs[i]))
  {
    [ContentLength(length), Connection(linger)]
  }

  /** The lines of a response head: status, fields, and the empty line. */
  function HeadLines(status: nat, title: string, length: CInt, linger: bool): seq<string>
    requires length >= 0
  {
    [StatusLine(status, title)] + HeaderLines(ReplyFields(length, linger)) + [""]
  }

  /** A complete error response. */
  function ErrorResponse(code: HttpCode, linger: bool): string {
    Unlines(HeadLines(ErrorStatus(code), ErrorTitle(code), |ErrorForm(code)|, linger)) + ErrorForm(code)
  }

  class Reply {
    const writeBuf: array<char>
    var writeIdx: nat
    /** The pieces accepted so far, and the C string that stands in the buffer. */
    ghost var text: string
    ghost var shown: string

    ghost predicate Valid()
      reads this, writeBuf
    {
      && writeBuf.Length == WRITE_BUFFER_SIZE
      && writeIdx == |text| <= CAPACITY && NUL !in text
      && text <= shown && |shown| <= CAPACITY
      && IsCStr(writeBuf[..], 0, shown)
    }

    ghost predicate Empty()
      reads this, writeBuf
    {
      Valid() && text == "" && shown == ""
    }

    constructor ()
      ensures Empty() && fresh(writeBuf) && writeBuf.Length == 1024
    {
      writeBuf := new char[WRITE_BUFFER_SIZE](_ => NUL);
      writeIdx, text, shown := 0, "", "";
    }

    method Init()
      requires writeBuf.Length == WRITE_BUFFER_SIZE
      modifies this, writeBuf
      ensures Empty()
    {
      writeIdx, text, shown := 0, "", "";
      forall i | 0 <= i < writeBuf.Length {
        writeBuf[i] := NUL;
      }
    }

    /** Print one piece, whole or not at all as far as the index goes. A piece that does not fit leaves
        its beginning in the buffer, in front of the terminator. */
    method AddResponse(piece: string) returns (ok: bool)
      requires writeBuf.Length == WRITE_BUFFER_SIZE && NUL !in piece
      modifies this, writeBuf
      ensures writeBuf[..] == Printed(old(writeBuf[..]), old(writeIdx), piece)
      ensures ok == (old(writeIdx) + |piece| <= CAPACITY) == (|piece| < 1023 - old(writeIdx))
      ensures writeIdx == old(writeIdx) + if ok then |piece| else 0
      ensures old(Valid()) ==>
                && Valid()
                && text == (if ok then old(text) + piece else old(text))
                && shown == (if ok then text else text + piece[..CAPACITY - |text|])
    {
      hide IsCStr, Printed;
      ghost var b, w := writeBuf[..], writeIdx;
      PrintedIs(b, w, piece);
      if Valid() {
        PrintedShown(b, text, shown, piece);
      }
      if writeIdx >= WRITE_BUFFER_SIZE {
        return false;
      }
      var size := WRITE_BUFFER_SIZE - 1 - writeIdx;
      if size > 0 {
        var n := if |piece| < size then |piece| else size - 1;
        forall i | 0 <= i < n {
          writeBuf[writeIdx + i] := piece[i];
        }
        writeBuf[writeIdx + n] := NUL;
        assert piece[..n] == Fitting(w, piece);
        assert writeBuf[..] == Printed(b, w, piece);
        shown := text + Fitting(w, piece);
      }
      if |piece| >= size {
        return false;
      }
      text := text + piece;
      writeIdx := writeIdx + |piece|;
      return true;
    }

    method AddStatusLine(status: nat, title: string) returns (ok: bool)
      requires Valid() && Plain(title)
      modifies this, writeBuf
      ensures Valid() && text == Offer(old(text), StatusLine(status, title) + CRLF)
      ensures ok ==> shown == text
    {
      DigitsPlain(Decimal(status));
      ok := AddResponse(StatusLine(status, title) + CRLF);
    }

    method AddContentLength(length: CInt) returns (ok: bool)
      requires Valid() && length >= 0
      modifies this, writeBuf
      ensures Valid() && text == Offer(old(text), HeaderLine(ContentLength(length)) + CRLF)
    {
      HeaderLinePlain(ContentLength(length));
      ok := AddResponse(HeaderLine(ContentLength(length)) + CRLF);
    }

    method AddLinger(linger: bool) returns (ok: bool)
      requires Valid()
      modifies this, writeBuf
      ensures Valid() && text == Offer(old(text), HeaderLine(Connection(linger)) + CRLF)
    {
      HeaderLinePlain(Connection(linger));
      ok := AddResponse(HeaderLine(Connection(linger)) + CRLF);
    }

    method AddBlankLine() returns (ok: bool)
      requires Valid()
      modifies this, writeBuf
      ensures Valid() && text == Offer(old(text), CRLF) && shown == Showing(old(text), CRLF)
      ensures ok == (|old(text)| + 2 <= CAPACITY) && (ok ==> shown == text)
    {
      ok := AddResponse(CRLF);
    }

    method AddContent(content: string) returns (ok: bool)
      requires Valid() && NUL !in content
      modifies this, writeBuf
      ensures Valid() && text == Offer(old(text), content) && shown == Showing(old(text), content)
      ensures ok == (|old(text)| + |content| <= CAPACITY) && (ok ==> shown == text)
    {
      ok := AddResponse(content);
    }

    method AddHeaders(length: CInt, linger: bool)
      requires Valid() && length >= 0
      modifies this, writeBuf
      ensures Valid() && text == OfferAll(old(text), HeaderPieces(length, linger))
      ensures shown == Showing(FieldsOffered(old(text), length, linger), CRLF)
    {
      hide HeaderLine;
      ghost var t := text;
      var ok := AddContentLength(length);
      ok := AddLinger(linger);
      ok := AddBlankLine();
      OfferHeaders(t, length, linger);
    }

    /** `process_write`, from any buffer: status line, headers and body are offered in this order behind what
        is there. For an error code the verdict is true exactly when the body fits; for a file the head is
        offered, and an empty file gets a body of its own but the verdict false. */
    method ProcessWrite(code: HttpCode, linger: bool, size: CInt) returns (ok: bool)
      requires Valid() && size >= 0
      modifies this, writeBuf
      ensures Valid()
      ensures IsError(code) ==>
                var head := ErrorHead(old(text), code, linger);
                && ok == (|head| + |ErrorForm(code)| <= CAPACITY)
                && text == Offer(head, ErrorForm(code)) && shown == Showing(head, ErrorForm(code))
                && (ok ==> shown == text == head + ErrorForm(code))
      ensures code == FILE_REQUEST && size != 0 ==>
                && ok && text == HeadOffered(old(text), 200, "OK", size, linger)
                && shown == HeadShown(old(text), 200, "OK", size, linger)
      ensures code == FILE_REQUEST && size == 0 ==>
                !ok && text == Offer(HeadOffered(old(text), 200, "OK", 26, linger), "<html><body></body></html>")
      ensures old(text) == "" && (code == INTERNAL_ERROR || code == BAD_REQUEST || code == NO_RESOURCE || code == FORBIDDEN_REQUEST) ==>
                ok && shown == text == ErrorResponse(code, linger)
      ensures !IsError(code) && code != FILE_REQUEST ==> !ok && text == old(text) && shown == old(shown)
    {
      hide ErrorTitle, ErrorForm, ErrorStatus, HeaderPieces, StatusLine, HeadLines, Unlines, OfferAll, Concat, FieldsOffered,
           HeaderLine, Printed, IsCStr;
      if IsError(code) {
        FormIsText(code);
        FromEmpty(code, linger);
        ok := AddStatusLine(ErrorStatus(code), ErrorTitle(code));
        AddHeaders(|ErrorForm(code)|, linger);
        ok := AddContent(ErrorForm(code));
      } else if code == FILE_REQUEST {
        ok := AddStatusLine(200, "OK");
        if size != 0 {
          AddHeaders(size, linger);
          return true;
        }
        AddHeaders(|EMPTY_PAGE|, linger);
        ok := AddContent(EMPTY_PAGE);
        ok := false;
      } else {
        ok := false;
      }
    }

    /** What `write` sends: the C string in the buffer. */
    method Sent() returns (bytes: string)
      requires Valid()
      ensures bytes == shown
    {
      CStrValue(writeBuf[..], 0, shown);
      bytes := Cut(writeBuf[..]);
      assert writeBuf[..][0..] == writeBuf[..];
    }
  }

  const EMPTY_PAGE := "<html><body></body></html>"

  /** The accepted text after a piece is offered. */
  function Offer(text: string, piece: string): string {
    if |text| + |piece| <= CAPACITY then text + piece else text
  }

  /** What then stands in the buffer: a piece that does not fit leaves its beginning. */
  function Showing(text: string, piece: string): string
    requires |text| <= CAPACITY
  {
    if |text| + |piece| <= CAPACITY then text + piece else text + piece[..CAPACITY - |text|]
  }

  /** The accepted text after a sequence of pieces is offered. */
  function OfferAll(text: string, pieces: seq<string>): string
    decreases |pieces|
  {
    if pieces == [] then text else OfferAll(Offer(text, pieces[0]), pieces[1..])
  }

  /** Pieces that fit together are all accepted, in order. */
  lemma {:induction false} OfferAllFit(text: string, pieces: seq<string>)
    requires |text| + |Concat(pieces)| <= CAPACITY
    ensures OfferAll(text, pieces) == text + Concat(pieces)
    decreases |pieces|
  {
    if pieces == [] {
      assert text + "" == text;
    } else {
      OfferAllFit(text + pieces[0], pieces[1..]);
      assert (text + pieces[0]) + Concat(pieces[1..]) == text + (pieces[0] + Concat(pieces[1..]));
    }
  }

  /** The head of a response as one string, and the accepted text after its pieces were offered. */
  function Head(status: nat, title: string, length: CInt, linger: bool): string
    requires length >= 0
  {
    Unlines(HeadLines(status, title, length, linger))
  }

  function HeadOffered(text: string, status: nat, title: string, length: CInt, linger: bool): (t: string)
    requires length >= 0
    ensures |text| <= CAPACITY ==> |t| <= CAPACITY
  {
    OfferBound(Offer(text, StatusLine(status, title) + CRLF), HeaderPieces(length, linger));
    OfferAll(Offer(text, StatusLine(status, title) + CRLF), HeaderPieces(length, linger))
  }

  /** The accepted text after the two header fields were offered. */
  function FieldsOffered(text: string, length: CInt, linger: bool): (t: string)
    requires length >= 0
    ensures |text| <= CAPACITY ==> |t| <= CAPACITY
  {
    Offer(Offer(text, HeaderLine(ContentLength(length)) + CRLF), HeaderLine(Connection(linger)) + CRLF)
  }

  /** What stands in the buffer after a head was offered: the accepted pieces, and of an empty line that does
      not fit its beginning. What was left of a field that did not fit is overwritten. */
  function HeadShown(text: string, status: nat, title: string, length: CInt, linger: bool): (t: string)
    requires length >= 0 && |text| <= CAPACITY
  {
    Showing(FieldsOffered(Offer(text, StatusLine(status, title) + CRLF), length, linger), CRLF)
  }

  /** A head that fits stands there whole. */
  lemma HeadShownFits(text: string, status: nat, title: string, length: CInt, linger: bool)
    requires length >= 0 && |text| + |Head(status, title, length, linger)| <= CAPACITY
    ensures HeadShown(text, status, title, length, linger) == text + Head(status, title, length, linger)
  {
    hide StatusLine, HeaderLine, HeadLines, Unlines, Concat, HeaderPieces, OfferAll;
    HeadFits(text, status, title, length, linger);
    OfferHeaders(Offer(text, StatusLine(status, title) + CRLF), length, linger);
  }

  /** The accepted text after the head of an error response was offered. */
  function ErrorHead(text: string, code: HttpCode, linger: bool): (t: string)
    ensures |text| <= CAPACITY ==> |t| <= CAPACITY
  {
    HeadOffered(text, ErrorStatus(code), ErrorTitle(code), |ErrorForm(code)|, linger)
  }

  lemma {:induction false} OfferBound(text: string, pieces: seq<string>)
    ensures |text| <= CAPACITY ==> |OfferAll(text, pieces)| <= CAPACITY
    decreases |pieces|
  {
    if pieces == [] {
    } else {
      OfferBound(Offer(text, pieces[0]), pieces[1..]);
    }
  }

  /** Offering never takes anything back. */
  lemma {:induction false} OfferGrows(text: string, pieces: seq<string>)
    ensures |text| <= |OfferAll(text, pieces)|
    decreases |pieces|
  {
    if pieces == [] {
    } else {
      OfferGrows(Offer(text, pieces[0]), pieces[1..]);
    }
  }

  lemma HeadGrows(text: string, code: HttpCode, linger: bool)
    ensures |text| <= |ErrorHead(text, code, linger)|
  {
    hide StatusLine, HeaderPieces, OfferAll;
    OfferGrows(Offer(text, StatusLine(ErrorStatus(code), ErrorTitle(code)) + CRLF), HeaderPieces(|ErrorForm(code)|, linger));
  }

  /** A head that fits is accepted whole, behind what was there. */
  lemma HeadFits(text: string, status: nat, title: string, length: CInt, linger: bool)
    requires length >= 0 && |text| + |Head(status, title, length, linger)| <= CAPACITY
    ensures HeadOffered(text, status, title, length, linger) == text + Head(status, title, length, linger)
    ensures var t := Offer(text, StatusLine(status, title) + CRLF);
            |t| + |Concat(HeaderPieces(length, linger))| <= CAPACITY
  {
    hide StatusLine, HeaderPieces, HeadLines, Unlines, Concat;
    HeadText(status, title, length, linger);
    OfferAllFit(text + (StatusLine(status, title) + CRLF), HeaderPieces(length, linger));
  }

  /** On an empty buffer every response fits. */
  lemma OneResponseFits(code: HttpCode, size: CInt, linger: bool)
    requires size >= 0
    ensures |ErrorResponse(code, linger)| <= CAPACITY && |Head(200, "OK", size, linger)| <= CAPACITY
  {
    hide ErrorTitle, ErrorForm, HeadLines, Unlines, HeaderPieces, StatusLine, OfferAll, Offer, Concat;
    ReplyFits(ErrorStatus(code), ErrorTitle(code), |ErrorForm(code)|, linger, ErrorForm(code));
    ReplyFits(200, "OK", size, linger, "");
  }

  /** A response that fits is accepted whole, behind what was there. */
  lemma ResponseFits(text: string, code: HttpCode, linger: bool)
    requires |text| + |ErrorResponse(code, linger)| <= CAPACITY
    ensures var head := ErrorHead(text, code, linger);
            && |head| + |ErrorForm(code)| <= CAPACITY
            && Offer(head, ErrorForm(code)) == Showing(head, ErrorForm(code)) == text + ErrorResponse(code, linger)
  {
    hide ErrorTitle, ErrorForm, ErrorStatus, HeadOffered, HeadLines, Unlines, StatusLine, HeaderPieces, OfferAll, Concat;
    HeadFits(text, ErrorStatus(code), ErrorTitle(code), |ErrorForm(code)|, linger);
    JoinThree(text, Head(ErrorStatus(code), ErrorTitle(code), |ErrorForm(code)|, linger), ErrorForm(code));
  }

  lemma FromEmpty(code: HttpCode, linger: bool)
    ensures var head := ErrorHead("", code, linger);
            |head| + |ErrorForm(code)| <= CAPACITY && head + ErrorForm(code) == ErrorResponse(code, linger)
  {
    hide ErrorForm, ErrorHead, ErrorResponse, Head;
    OneResponseFits(code, 0, linger);
    ResponseFits("", code, linger);
    assert "" + ErrorResponse(code, linger) == ErrorResponse(code, linger);
  }

  lemma JoinThree(a: string, b: string, c: string)
    ensures (a + b) + c == a + (b + c)
  {
  }

  function HeaderPieces(length: CInt, linger: bool): seq<string>
    requires length >= 0
  {
    [HeaderLine(ContentLength(length)) + CRLF, HeaderLine(Connection(linger)) + CRLF, CRLF]
  }

  lemma OfferHeaders(t: string, length: CInt, linger: bool)
    requires length >= 0
    ensures OfferAll(t, HeaderPieces(length, linger)) ==
            Offer(Offer(Offer(t, HeaderLine(ContentLength(length)) + CRLF), HeaderLine(Connection(linger)) + CRLF), CRLF)
    ensures var a, b := HeaderLine(ContentLength(length)) + CRLF, HeaderLine(Connection(linger)) + CRLF;
            |Concat(HeaderPieces(length, linger))| == |a| + |b| + 2
  {
    hide HeaderLine;
    ThreePieces(t, HeaderLine(ContentLength(length)) + CRLF, HeaderLine(Connection(linger)) + CRLF, CRLF);
  }

  lemma ThreePieces(t: string, a: string, b: string, c: string)
    ensures OfferAll(t, [a, b, c]) == Offer(Offer(Offer(t, a), b), c)
    ensures Concat([a, b, c]) == a + (b + c)
  {
    assert [a, b, c][1..] == [b, c] && [b, c][1..] == [c] && [c][1..] == [];
    assert c + "" == c;
    assert OfferAll(Offer(t, a), [b, c]) == OfferAll(Offer(Offer(t, a), b), [c]);
    assert Concat([b, c]) == b + Concat([c]);
  }

  lemma FourLines(a: string, b: string, c: string, d: string)
    ensures Unlines([a, b, c, d]) == a + CRLF + ((b + CRLF) + ((c + CRLF) + (d + CRLF)))
  {
    assert [a, b, c, d][1..] == [b, c, d] && [b, c, d][1..] == [c, d] && [c, d][1..] == [d] && [d][1..] == [];
    assert Unlines([d]) == d + CRLF + "" == d + CRLF;
    assert Unlines([c, d]) == c + CRLF + Unlines([d]);
    assert Unlines([b, c, d]) == b + CRLF + Unlines([c, d]);
  }

  /** Any reply with a short title and a body of at most 100 bytes fits, so it is printed whole. */
  lemma ReplyFits(status: nat, title: string, length: CInt, linger: bool, body: string)
    requires status < 1000 && |title| <= 20 && length >= 0 && |body| <= 100
    ensures var line := StatusLine(status, title) + CRLF;
            var head := line + Concat(HeaderPieces(length, linger));
            && Offer("", line) == line
            && |head| + |body| <= CAPACITY
            && OfferAll(line, HeaderPieces(length, linger)) == head == Unlines(HeadLines(status, title, length, linger))
            && Offer(head, body) == head + body
  {
    DecimalLength(status, 3);
    DecimalLength(length, 10);
    HeadSize(status, title, length, linger);
    OfferAllFit(StatusLine(status, title) + CRLF, HeaderPieces(length, linger));
    HeadText(status, title, length, linger);
  }

  lemma HeadSize(status: nat, title: string, length: CInt, linger: bool)
    requires length >= 0 && |Decimal(status)| <= 3 && |Decimal(length)| <= 10 && |title| <= 20
    ensures |StatusLine(status, title)| <= 40
    ensures |Concat(HeaderPieces(length, linger))| <= 60
  {
    OfferHeaders("", length, linger);
  }

  lemma HeadText(status: nat, title: string, length: CInt, linger: bool)
    requires length >= 0
    ensures Unlines(HeadLines(status, title, length, linger)) ==
            StatusLine(status, title) + CRLF + Concat(HeaderPieces(length, linger))
  {
    hide HeaderLine, StatusLine;
    var l1, l2 := HeaderLine(ContentLength(length)), HeaderLine(Connection(linger));
    var fs := ReplyFields(length, linger);
    assert fs[1..] == [Connection(linger)] && fs[1..][1..] == [];
    assert HeaderLines(fs[1..]) == [l2];
    assert HeadLines(status, title, length, linger) == [StatusLine(status, title), l1, l2, ""];
    FourLines(StatusLine(status, title), l1, l2, "");
    ThreePieces("", l1 + CRLF, l2 + CRLF, CRLF);
    assert "" + CRLF == CRLF;
  }

  /** The piece, as far as there is room. */
  function Fitting(w: nat, piece: string): (s: string)
    ensures w + |piece| <= CAPACITY ==> s == piece
    ensures w <= CAPACITY ==> w + |s| <= CAPACITY && s <= piece
  {
    if w + |piece| <= CAPACITY then piece else if w <= CAPACITY then piece[..CAPACITY - w] else ""
  }

  /** The bytes of a printed buffer, one by one. */
  lemma PrintedIs(b: string, w: nat, piece: string)
    requires |b| == WRITE_BUFFER_SIZE
    ensures w > CAPACITY ==> Printed(b, w, piece) == b
    ensures w <= CAPACITY ==>
              var s := Fitting(w, piece);
              forall i :: 0 <= i < |b| ==>
                            Printed(b, w, piece)[i] == if w <= i < w + |s| then s[i - w] else if i == w + |s| then NUL else b[i]
  {
  }

  /** Printing at the end of the accepted text replaces whatever stood behind it. */
  lemma PrintedShown(b: string, text: string, shown: string, piece: string)
    requires |b| == WRITE_BUFFER_SIZE && IsCStr(b, 0, shown) && text <= shown && |text| <= CAPACITY
    requires NUL !in text && NUL !in piece
    ensures IsCStr(Printed(b, |text|, piece), 0, text + Fitting(|text|, piece))
  {
    hide Printed;
    PrintedIs(b, |text|, piece);
    var b', s := Printed(b, |text|, piece), text + Fitting(|text|, piece);
    assert forall i :: 0 <= i < |text| ==> b[i] == b[0..|shown|][i] == text[i];
    assert b'[0..|s|] == s;
  }

  /** The head of a response reads back through the request parser's own line splitter and header fold:
      the lines come back, then the announced length and the keep-alive choice. */
  lemma HeadReadsBack(status: nat, title: string, length: CInt, linger: bool, body: string)
    requires length >= 0 && Plain(title)
    ensures var ls := HeadLines(status, title, length, linger);
            var hs := ls[1..3];
            && Split(Unlines(ls) + body).0 == ls + Split(body).0
            && FirstEmpty(ls[1..]) == 2
            && LastLength(hs, 0) == length
            && (KeepsAlive(hs) <==> linger)
  {
    hide HeaderLine, StatusLine, HeaderField, FirstEmpty, LastLength, KeepsAlive, Split, Unlines, WithHeaders;
    var ls, fs := HeadLines(status, title, length, linger), ReplyFields(length, linger);
    HeaderLinesRoundTrip(INITIAL, fs);
    StatusLinePlain(status, title);
    var hs := HeaderLines(fs);
    assert ls[1..] == hs + [""] + [];
    assert ls[1..3] == hs;
    EmptyAt(hs, []);
    SplitOfUnlines(ls, body);
    TwoFields(length, linger);
    HeadersSummary(INITIAL, hs);
  }

  lemma TwoFields(length: CInt, linger: bool)
    ensures WithFields(INITIAL, ReplyFields(length, linger)) == INITIAL.(contentLength := length, linger := linger)
  {
    var fs := ReplyFields(length, linger);
    assert fs[1..] == [Connection(linger)] && fs[1..][1..] == [];
    assert WithFields(WithField(INITIAL, fs[0]), fs[1..]) ==
           WithFields(WithField(WithField(INITIAL, fs[0]), fs[1]), []);
  }

  lemma StatusLinePlain(status: nat, title: string)
    requires Plain(title)
    ensures Plain(StatusLine(status, title))
  {
    DigitsPlain(Decimal(status));
  }

  /** A response, whatever its body, splits back into its head and announces the length it was given. */
  lemma HeadInFront(status: nat, title: string, length: CInt, linger: bool, body: string)
    requires length >= 0 && Plain(title)
    ensures var reply := Head(status, title, length, linger) + body;
            var ls := Split(reply).0;
            && |ls| >= 4 && FirstEmpty(ls[1..]) == 2 && reply == Unlines(ls[..4]) + body
            && LastLength(ls[1..3], 0) == length && (KeepsAlive(ls[1..3]) <==> linger)
  {
    hide FirstEmpty, LastLength, KeepsAlive, Split, Unlines, HeadLines;
    var head := HeadLines(status, title, length, linger);
    HeadReadsBack(status, title, length, linger, body);
    HeadCount(status, title, length, linger);
    var ls := Split(Head(status, title, length, linger) + body).0;
    assert ls[..4] == head;
    assert ls[1..3] == head[1..3];
    assert ls[1..] == head[1..] + Split(body).0;
    FirstEmptyPrefix(head[1..], Split(body).0);
  }

  /** In every error response the announced length is the number of bytes behind the empty line. */
  lemma ErrorLengthIsBody(code: HttpCode, linger: bool)
    ensures var reply := ErrorResponse(code, linger);
            var ls := Split(reply).0;
            && |ls| >= 4 && FirstEmpty(ls[1..]) == 2
            && LastLength(ls[1..3], 0) == |reply| - |Unlines(ls[..4])|
            && (KeepsAlive(ls[1..3]) <==> linger)
            && reply == Unlines(ls[..4]) + ErrorForm(code)
  {
    hide ErrorTitle, ErrorForm, FirstEmpty, LastLength, KeepsAlive, Split, Unlines, HeadLines;
    HeadInFront(ErrorStatus(code), ErrorTitle(code), |ErrorForm(code)|, linger, ErrorForm(code));
  }

  /** In the response with a file it is that number if and only if the file has no NUL: the length is that of
      the file, but `strlen` decides what is sent. */
  lemma FileLengthIsBody(content: string, linger: bool)
    requires |content| <= INT_MAX
    ensures var reply := Head(200, "OK", |content|, linger) + Cut(content);
            var ls := Split(reply).0;
            && |ls| >= 4 && FirstEmpty(ls[1..]) == 2
            && (LastLength(ls[1..3], 0) == |reply| - |Unlines(ls[..4])| <==> NUL !in content)
            && (KeepsAlive(ls[1..3]) <==> linger)
            && reply == Unlines(ls[..4]) + Cut(content)
  {
    hide FirstEmpty, LastLength, KeepsAlive, Split, Unlines, HeadLines, Cut, Head;
    HeadInFront(200, "OK", |content|, linger, Cut(content));
    CutLength(content);
  }

  /** The text on the wire: a status line, the announced length, the connection line, the empty line, and
      what follows. */
  ghost predicate OnTheWire(reply: string, first: string, length: string, linger: bool, text: string) {
    var ls := Split(reply).0;
    && |ls| >= 4 && reply == Unlines(ls[..4]) + text
    && ls[..4] == [first, length, ConnectionText(linger), ""]
  }

  function ConnectionText(linger: bool): string {
    if linger then "Connection: keep-alive" else "Connection: close"
  }

  lemma HeadOnTheWire(status: nat, title: string, length: CInt, linger: bool, body: string)
    requires length >= 0 && Plain(title)
    ensures var ls := Split(Head(status, title, length, linger) + body).0;
            |ls| >= 4 && ls[..4] == HeadLines(status, title, length, linger)
  {
    hide Split, Unlines, HeadLines, StatusLine, FirstEmpty, LastLength, KeepsAlive;
    HeadReadsBack(status, title, length, linger, body);
    HeadCount(status, title, length, linger);
  }

  lemma TwoDigits(n: nat)
    requires 10 <= n < 100
    ensures Decimal(n) == [Digit(n / 10), Digit(n % 10)]
  {
  }

  lemma ThreeDigits(n: nat)
    requires 100 <= n < 1000
    ensures Decimal(n) == [Digit(n / 100), Digit(n / 10 % 10), Digit(n % 10)]
  {
    TwoDigits(n / 10);
  }

  lemma FourHeadLines(status: nat, title: string, length: CInt, linger: bool)
    requires length >= 0
    ensures HeadLines(status, title, length, linger) ==
            [StatusLine(status, title), HeaderLine(ContentLength(length)), ConnectionText(linger), ""]
  {
    hide StatusLine;
    var fs := ReplyFields(length, linger);
    assert fs[1..] == [Connection(linger)] && fs[1..][1..] == [];
    assert HeaderLines(fs[1..]) == [HeaderLine(fs[1])];
    ConnectionLineIs(linger);
  }

  lemma ConnectionLineIs(linger: bool)
    ensures HeaderLine(Connection(linger)) == ConnectionText(linger)
  {
    assert "Connection:" + (" " + "keep-alive") == "Connection: keep-alive";
    assert "Connection:" + (" " + "close") == "Connection: close";
  }

  lemma HeadWire(status: nat, title: string, length: CInt, linger: bool, body: string)
    requires length >= 0 && Plain(title)
    ensures OnTheWire(Head(status, title, length, linger) + body, StatusLine(status, title),
                      HeaderLine(ContentLength(length)), linger, body)
  {
    hide HeadLines, Split, Unlines, ConnectionText, StatusLine, HeaderLine;
    HeadOnTheWire(status, title, length, linger, body);
    FourHeadLines(status, title, length, linger);
  }

  lemma ErrorWire(code: HttpCode, linger: bool)
    ensures OnTheWire(ErrorResponse(code, linger), StatusLine(ErrorStatus(code), ErrorTitle(code)),
                      HeaderLine(ContentLength(|ErrorForm(code)|)), linger, ErrorForm(code))
  {
    hide OnTheWire, HeadLines, StatusLine, HeaderLine, ErrorTitle, ErrorForm, ErrorStatus, Unlines;
    HeadWire(ErrorStatus(code), ErrorTitle(code), |ErrorForm(code)|, linger, ErrorForm(code));
  }

  lemma Status400()
    ensures StatusLine(ErrorStatus(BAD_REQUEST), ErrorTitle(BAD_REQUEST)) == "HTTP/1.1 400 Bad Request"
    ensures Plain(ErrorTitle(BAD_REQUEST))
  {
    hide Decimal;
    ThreeDigits(400);
    assert Decimal(400) == "400";
  }

  lemma Length400()
    ensures HeaderLine(ContentLength(|ErrorForm(BAD_REQUEST)|)) == "Content-Length: 68"
  {
    TwoDigits(68);
    assert "Content-Length:" + (" " + "68") == "Content-Length: 68";
  }

  lemma Wire400(linger: bool)
    ensures OnTheWire(ErrorResponse(BAD_REQUEST, linger), "HTTP/1.1 400 Bad Request", "Content-Length: 68", linger,
                      "Your request has bad syntax or is " + "inherently impossible to satisfy.\n")
  {
    hide OnTheWire, StatusLine, HeaderLine, ErrorTitle, ErrorResponse;
    Status400();
    Length400();
    ErrorWire(BAD_REQUEST, linger);
  }

  lemma Status403()
    ensures StatusLine(ErrorStatus(FORBIDDEN_REQUEST), ErrorTitle(FORBIDDEN_REQUEST)) == "HTTP/1.1 403 Forbidden"
    ensures Plain(ErrorTitle(FORBIDDEN_REQUEST))
  {
    hide Decimal;
    ThreeDigits(403);
    assert Decimal(403) == "403";
  }

  lemma Length403()
    ensures HeaderLine(ContentLength(|ErrorForm(FORBIDDEN_REQUEST)|)) == "Content-Length: 57"
  {
    TwoDigits(57);
    assert "Content-Length:" + (" " + "57") == "Content-Length: 57";
  }

  lemma Wire403(linger: bool)
    ensures OnTheWire(ErrorResponse(FORBIDDEN_REQUEST, linger), "HTTP/1.1 403 Forbidden", "Content-Length: 57", linger,
                      "You do not have permission " + "to get file from this server.\n")
  {
    hide OnTheWire, StatusLine, HeaderLine, ErrorTitle, ErrorResponse;
    Status403();
    Length403();
    ErrorWire(FORBIDDEN_REQUEST, linger);
  }

  lemma Status404()
    ensures StatusLine(ErrorStatus(NO_RESOURCE), ErrorTitle(NO_RESOURCE)) == "HTTP/1.1 404 Not Found"
    ensures Plain(ErrorTitle(NO_RESOURCE))
  {
    hide Decimal;
    ThreeDigits(404);
    assert Decimal(404) == "404";
  }

  lemma Length404()
    ensures HeaderLine(ContentLength(|ErrorForm(NO_RESOURCE)|)) == "Content-Length: 49"
  {
    TwoDigits(49);
    assert "Content-Length:" + (" " + "49") == "Content-Length: 49";
  }

  lemma Wire404(linger: bool)
    ensures OnTheWire(ErrorResponse(NO_RESOURCE, linger), "HTTP/1.1 404 Not Found", "Content-Length: 49", linger,
                      "The requested file was " + "not found on this server.\n")
  {
    hide OnTheWire, StatusLine, HeaderLine, ErrorTitle, ErrorResponse;
    Status404();
    Length404();
    ErrorWire(NO_RESOURCE, linger);
  }

  lemma Status500()
    ensures StatusLine(ErrorStatus(INTERNAL_ERROR), ErrorTitle(INTERNAL_ERROR)) == "HTTP/1.1 500 Internal Error"
    ensures Plain(ErrorTitle(INTERNAL_ERROR))
  {
    hide Decimal;
    ThreeDigits(500);
    assert Decimal(500) == "500";
  }

  lemma Length500()
    ensures HeaderLine(ContentLength(|ErrorForm(INTERNAL_ERROR)|)) == "Content-Length: 57"
  {
    TwoDigits(57);
    assert "Content-Length:" + (" " + "57") == "Content-Length: 57";
  }

  lemma Wire500(linger: bool)
    ensures OnTheWire(ErrorResponse(INTERNAL_ERROR, linger), "HTTP/1.1 500 Internal Error", "Content-Length: 57", linger,
                      "There was an unusual problem " + "serving the requested file.\n")
  {
    hide OnTheWire, StatusLine, HeaderLine, ErrorTitle, ErrorResponse;
    Status500();
    Length500();
    ErrorWire(INTERNAL_ERROR, linger);
  }

  lemma LengthText(n: CInt)
    requires n >= 0
    ensures HeaderLine(ContentLength(n)) == "Content-Length:" + (" " + Decimal(n))
  {
  }

  lemma Status200()
    ensures StatusLine(200, "OK") == "HTTP/1.1 200 OK" && Plain("OK")
  {
    hide Decimal;
    ThreeDigits(200);
    assert Decimal(200) == "200";
  }

  /** The response with a file: its length is announced in decimal, and what follows is in front of its first
      NUL. */
  lemma Wire200(content: string, linger: bool)
    requires |content| <= INT_MAX
    ensures OnTheWire(Head(200, "OK", |content|, linger) + Cut(content), "HTTP/1.1 200 OK",
                      "Content-Length:" + (" " + Decimal(|content|)), linger, Cut(content))
  {
    hide OnTheWire, Cut, StatusLine, HeaderLine, Head, Decimal, Plain;
    Status200();
    HeadWire(200, "OK", |content|, linger, Cut(content));
    LengthText(|content|);
  }

  lemma CutLength(s: string)
    ensures |Cut(s)| == |s| <==> NUL !in s
  {
  }

  lemma HeadCount(status: nat, title: string, length: CInt, linger: bool)
    requires length >= 0
    ensures |HeadLines(status, title, length, linger)| == 4
  {
  }

  lemma {:induction false} FirstEmptyPrefix(ls: seq<string>, more: seq<string>)
    requires FirstEmpty(ls) < |ls|
    ensures FirstEmpty(ls + more) == FirstEmpty(ls)
  {
    if ls[0] == "" {
    } else {
      assert (ls + more)[1..] == ls[1..] + more;
      FirstEmptyPrefix(ls[1..], more);
    }
  }
}
