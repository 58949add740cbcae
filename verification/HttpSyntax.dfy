/** What one accepted line means: the request line and the header fields, as C strings. */
module HttpSyntax {
  import opened CString
  import opened CTypes

  datatype Method = GET | POST | HEAD | PUT | DELETE | TRACE | OPTIONS | CONNECT | PATCH

  datatype CheckState = RequestLineState | HeaderState | ContentState

  datatype HttpCode =
    | NO_REQUEST | GET_REQUEST | HEAD_REQUEST | POST_REQUEST | PUT_REQUEST | DELETE_REQUEST
    | TRACE_REQUEST | OPTIONS_REQUEST | CONNECT_REQUEST | PATCH_REQUEST | BAD_REQUEST
    | NO_RESOURCE | FORBIDDEN_REQUEST | FILE_REQUEST | INTERNAL_ERROR | CLOSED_CONNECTION

  function MethodName(m: Method): (s: string)
    ensures s != "" && NoBlank(s) && NUL !in s && CR !in s && LF !in s
  {
    match m
    case GET => "GET"
    case POST => "POST"
    case HEAD => "HEAD"
    case PUT => "PUT"
    case DELETE => "DELETE"
    case TRACE => "TRACE"
    case OPTIONS => "OPTIONS"
    case CONNECT => "CONNECT"
    case PATCH => "PATCH"
  }

  function RequestCode(m: Method): HttpCode {
    match m
    case GET => GET_REQUEST
    case POST => POST_REQUEST
    case HEAD => HEAD_REQUEST
    case PUT => PUT_REQUEST
    case DELETE => DELETE_REQUEST
    case TRACE => TRACE_REQUEST
    case OPTIONS => OPTIONS_REQUEST
    case CONNECT => CONNECT_REQUEST
    case PATCH => PATCH_REQUEST
  }

  /** The method a token names, whatever its case. */
  function MethodOf(s: string): (r: Option<Method>)
    ensures r.Some? ==> EqNoCase(s, MethodName(r.value))
    ensures r.None? ==> forall m: Method :: !EqNoCase(s, MethodName(m))
  {
    if EqNoCase(s, "GET") then Some(GET)
    else if EqNoCase(s, "HEAD") then Some(HEAD)
    else if EqNoCase(s, "POST") then Some(POST)
    else if EqNoCase(s, "PUT") then Some(PUT)
    else if EqNoCase(s, "DELETE") then Some(DELETE)
    else if EqNoCase(s, "TRACE") then Some(TRACE)
    else if EqNoCase(s, "OPTIONS") then Some(OPTIONS)
    else if EqNoCase(s, "CONNECT") then Some(CONNECT)
    else if EqNoCase(s, "PATCH") then Some(PATCH)
    else None
  }

  lemma NameStart(m: Method)
    ensures var n := MethodName(m);
            match m
            case GET => |n| == 3 && n[0] == 'G'
            case POST => |n| == 4 && n[0] == 'P'
            case HEAD => |n| == 4 && n[0] == 'H'
            case PUT => |n| == 3 && n[0] == 'P'
            case DELETE => |n| == 6
            case TRACE => |n| == 5 && n[0] == 'T'
            case OPTIONS => |n| == 7 && n[0] == 'O'
            case CONNECT => |n| == 7 && n[0] == 'C'
            case PATCH => |n| == 5 && n[0] == 'P'
  {
  }

  /** No string is the name of two methods. */
  lemma NamesDiffer(s: string, m: Method, n: Method)
    requires EqNoCase(s, MethodName(m)) && EqNoCase(s, MethodName(n))
    ensures m == n
  {
    hide MethodName;
    NameStart(m);
    NameStart(n);
    assert ToLower(MethodName(m)[0]) == ToLower(s[0]) == ToLower(MethodName(n)[0]);
  }

  /** A token is a method if and only if it is its name up to letter case. */
  lemma MethodOfExactly(s: string, m: Method)
    ensures MethodOf(s) == Some(m) <==> SameButCase(s, MethodName(m))
  {
    hide MethodOf, MethodName, EqNoCase, SameButCase;
    NoCaseExactly(s, MethodName(m));
    if EqNoCase(s, MethodName(m)) {
      NamesDiffer(s, m, MethodOf(s).value);
    }
  }

  /** The nine names. */
  lemma MethodByName(s: string)
    ensures MethodOf(s) == Some(GET) <==> SameButCase(s, "GET")
    ensures MethodOf(s) == Some(POST) <==> SameButCase(s, "POST")
    ensures MethodOf(s) == Some(HEAD) <==> SameButCase(s, "HEAD")
    ensures MethodOf(s) == Some(PUT) <==> SameButCase(s, "PUT")
    ensures MethodOf(s) == Some(DELETE) <==> SameButCase(s, "DELETE")
    ensures MethodOf(s) == Some(TRACE) <==> SameButCase(s, "TRACE")
    ensures MethodOf(s) == Some(OPTIONS) <==> SameButCase(s, "OPTIONS")
    ensures MethodOf(s) == Some(CONNECT) <==> SameButCase(s, "CONNECT")
    ensures MethodOf(s) == Some(PATCH) <==> SameButCase(s, "PATCH")
  {
    hide MethodOf, SameButCase;
    forall m: Method ensures MethodOf(s) == Some(m) <==> SameButCase(s, MethodName(m)) {
      MethodOfExactly(s, m);
    }
    assert MethodOf(s) == Some(GET) <==> SameButCase(s, MethodName(GET));
    assert MethodOf(s) == Some(POST) <==> SameButCase(s, MethodName(POST));
    assert MethodOf(s) == Some(HEAD) <==> SameButCase(s, MethodName(HEAD));
    assert MethodOf(s) == Some(PUT) <==> SameButCase(s, MethodName(PUT));
    assert MethodOf(s) == Some(DELETE) <==> SameButCase(s, MethodName(DELETE));
    assert MethodOf(s) == Some(TRACE) <==> SameButCase(s, MethodName(TRACE));
    assert MethodOf(s) == Some(OPTIONS) <==> SameButCase(s, MethodName(OPTIONS));
    assert MethodOf(s) == Some(CONNECT) <==> SameButCase(s, MethodName(CONNECT));
    assert MethodOf(s) == Some(PATCH) <==> SameButCase(s, MethodName(PATCH));
  }

  /** The code that `parse_request_line` returns for a method token. */
  lemma CodeByName(s: string)
    requires MethodOf(s).Some?
    ensures var code := RequestCode(MethodOf(s).value);
            && (code == GET_REQUEST <==> SameButCase(s, "GET"))
            && (code == POST_REQUEST <==> SameButCase(s, "POST"))
            && (code == HEAD_REQUEST <==> SameButCase(s, "HEAD"))
            && (code == PUT_REQUEST <==> SameButCase(s, "PUT"))
            && (code == DELETE_REQUEST <==> SameButCase(s, "DELETE"))
            && (code == TRACE_REQUEST <==> SameButCase(s, "TRACE"))
            && (code == OPTIONS_REQUEST <==> SameButCase(s, "OPTIONS"))
            && (code == CONNECT_REQUEST <==> SameButCase(s, "CONNECT"))
            && (code == PATCH_REQUEST <==> SameButCase(s, "PATCH"))
  {
    hide MethodOf, SameButCase;
    MethodByName(s);
  }

  const HTTP_SCHEME := "http://"
  const HTTP_VERSION := "HTTP/1.1"

  /** The path of a request target: an absolute form loses its scheme and authority
      (section 3.2.2 of RFC 9112); anything that then does not start with a slash is refused. */
  function TargetPath(t: string): (r: Option<string>)
    ensures r.Some? ==> r.value != "" && r.value[0] == '/' && |r.value| <= |t| && r.value == t[|t| - |r.value|..]
  {
    if HasPrefixNoCase(t, HTTP_SCHEME) then
      var rest := t[7..];
      var k := FirstSlash(rest);
      if k < |rest| then Some(rest[k..]) else None
    else if t != "" && t[0] == '/' then Some(t)
    else None
  }

  /** What the path of a target is: a target that starts with a slash, or what follows the scheme, in any case,
      and an authority without a slash, from its first slash on. */
  ghost predicate IsPathOf(t: string, p: string) {
    && p != "" && p[0] == '/'
    && (t == p
        || (&& 7 + |p| <= |t| && SameButCase(t[..7], "http://")
            && '/' !in t[7..|t| - |p|] && t[|t| - |p|..] == p))
  }

  lemma SlashAt(s: string, i: nat)
    requires i < |s| && s[i] == '/' && forall j :: 0 <= j < i ==> s[j] != '/'
    ensures FirstSlash(s) == i
  {
    var j := FirstSlash(s);
    assert forall x :: 0 <= x < j ==> s[x] == s[..j][x];
  }

  lemma SchemeHasNoSlashFirst(t: string)
    requires HasPrefixNoCase(t, HTTP_SCHEME)
    ensures |t| >= 7 && t[0] != '/'
  {
    assert t[..7][0] == t[0];
  }

  /** A target has a path exactly in these two forms; every other target is refused. */
  lemma TargetPathExactly(t: string, p: string)
    ensures TargetPath(t) == Some(p) <==> IsPathOf(t, p)
  {
    hide FirstSlash, SameButCase, HasPrefixNoCase, EqNoCase;
    NoCaseExactly(t, HTTP_SCHEME);
    if HasPrefixNoCase(t, HTTP_SCHEME) {
      SchemeHasNoSlashFirst(t);
      var rest := t[7..];
      var k := FirstSlash(rest);
      if k < |rest| {
        assert t[7..7 + k] == rest[..k];
      }
      if 7 + |p| <= |t| && IsPathOf(t, p) {
        var i := |t| - |p| - 7;
        assert rest[..i] == t[7..|t| - |p|];
        assert forall j :: 0 <= j < i ==> rest[j] == rest[..i][j];
        assert rest[i] == p[0];
        SlashAt(rest, i);
      }
    }
  }

  datatype RequestLineResult = BadLine | GoodLine(verb: Method, url: string, version: string)

  /** Whether a string has a token with a blank behind it; that token; and what follows the blanks. */
  predicate HasGap(s: string) { FirstBlank(s) < |s| }

  function Token(s: string): (t: string)
    ensures |t| <= |s| && NoBlank(t)
  {
    s[..FirstBlank(s)]
  }

  function BehindGap(s: string): (r: string)
    ensures HasGap(s) ==> |Token(s)| + |r| < |s|
    ensures r != "" ==> !IsBlank(r[0])
  {
    if HasGap(s) then SkipBlanks(s[FirstBlank(s) + 1..]) else ""
  }

  /** What follows the method: a target, blanks and the version. */
  function AfterMethod(verb: Method, rest: string): RequestLineResult {
    if !HasGap(rest) || !EqNoCase(BehindGap(rest), HTTP_VERSION) || TargetPath(Token(rest)).None? then BadLine
    else GoodLine(verb, TargetPath(Token(rest)).value, BehindGap(rest))
  }

  /** The request line, token by token, in the order the parser meets the tokens. */
  function RequestLine(line: string): RequestLineResult {
    if !HasGap(line) || MethodOf(Token(line)).None? then BadLine
    else AfterMethod(MethodOf(Token(line)).value, BehindGap(line))
  }

  /** `line` is a method, blanks, a target, blanks and a version, and says what `r` records. */
  ghost predicate IsRequestLine(line: string, m: string, gap: string, t: string, gap': string, v: string, r: RequestLineResult) {
    && line == m + gap + t + gap' + v
    && ' ' !in m && '\t' !in m && ' ' !in t && '\t' !in t && IsGap(gap) && IsGap(gap')
    && SameButCase(v, "HTTP/1.1")
    && r.GoodLine? && r.version == v
    && SameButCase(m, MethodName(r.verb))
    && IsPathOf(t, r.url)
  }

  predicate IsGap(gap: string) {
    gap != "" && forall i :: 0 <= i < |gap| ==> gap[i] == ' ' || gap[i] == '\t'
  }

  lemma BlanksExactly(s: string)
    ensures NoBlank(s) <==> ' ' !in s && '\t' !in s
    ensures IsGap(s) <==> s != "" && AllBlank(s)
  {
  }

  /** The same in terms of the functions of the parser. */
  lemma PartsOfLine(line: string, m: string, gap: string, t: string, gap': string, v: string, r: RequestLineResult)
    ensures IsRequestLine(line, m, gap, t, gap', v, r) <==>
            && line == m + gap + t + gap' + v
            && NoBlank(m) && gap != "" && AllBlank(gap) && NoBlank(t) && gap' != "" && AllBlank(gap')
            && EqNoCase(v, HTTP_VERSION)
            && r.GoodLine? && r.version == v
            && MethodOf(m) == Some(r.verb)
            && TargetPath(t) == Some(r.url)
  {
    hide NoBlank, AllBlank, IsGap, SameButCase, EqNoCase, MethodOf, MethodName, TargetPath, IsPathOf;
    BlanksExactly(m);
    BlanksExactly(t);
    BlanksExactly(gap);
    BlanksExactly(gap');
    NoCaseExactly(v, HTTP_VERSION);
    if r.GoodLine? {
      MethodOfExactly(m, r.verb);
      TargetPathExactly(t, r.url);
    }
  }

  lemma FirstBlankAt(s: string, i: nat)
    requires i <= |s| && (forall j :: 0 <= j < i ==> !IsBlank(s[j])) && (i < |s| ==> IsBlank(s[i]))
    ensures FirstBlank(s) == i
  {
    var j := FirstBlank(s);
  }

  lemma LeadingBlanksAt(s: string, i: nat)
    requires i <= |s| && (forall j :: 0 <= j < i ==> IsBlank(s[j])) && (i < |s| ==> !IsBlank(s[i]))
    ensures LeadingBlanks(s) == i
  {
    var j := LeadingBlanks(s);
  }

  /** A gap of blanks between a token and the rest is skipped exactly. */
  lemma SkipGap(gap: string, rest: string)
    requires gap != "" && AllBlank(gap) && (rest != "" ==> !IsBlank(rest[0]))
    ensures SkipBlanks((gap + rest)[1..]) == rest
  {
    var s := (gap + rest)[1..];
    assert s == gap[1..] + rest;
    assert forall j :: 0 <= j < |gap| - 1 ==> s[j] == gap[j + 1];
    LeadingBlanksAt(s, |gap| - 1);
  }

  lemma DropToken(token: string, gap: string, rest: string)
    requires gap != ""
    ensures (token + gap + rest)[|token| + 1..] == (gap + rest)[1..]
  {
  }

  /** A token followed by a gap: the parser finds the token, and resumes after the gap. */
  lemma TokenThenGap(s: string, token: string, gap: string, rest: string)
    requires s == token + gap + rest
    requires NoBlank(token) && gap != "" && AllBlank(gap) && (rest != "" ==> !IsBlank(rest[0]))
    ensures HasGap(s) && Token(s) == token && BehindGap(s) == rest
  {
    hide FirstBlank, SkipBlanks;
    assert FirstBlank(s) == |token| && s[..|token|] == token by {
      assert s[|token|] == gap[0];
      FirstBlankAt(s, |token|);
    }
    assert SkipBlanks(s[|token| + 1..]) == rest by {
      DropToken(token, gap, rest);
      SkipGap(gap, rest);
    }
  }

  /** Every line of the accepted shape is accepted with the values of its parts. */
  lemma RequestLineOfTokens(line: string, m: string, gap: string, t: string, gap': string, v: string, r: RequestLineResult)
    requires IsRequestLine(line, m, gap, t, gap', v, r)
    ensures RequestLine(line) == r
  {
    hide MethodOf, TargetPath, EqNoCase, HasGap, Token, BehindGap, IsRequestLine;
    PartsOfLine(line, m, gap, t, gap', v, r);
    VersionStart(v);
    var rest := t + gap' + v;
    assert rest[0] == t[0];
    assert line == m + gap + rest by {
      Regroup(m, gap, t, gap', v);
    }
    TokenThenGap(line, m, gap, rest);
    TokenThenGap(rest, t, gap', v);
  }

  lemma VersionStart(v: string)
    requires EqNoCase(v, HTTP_VERSION)
    ensures v != "" && !IsBlank(v[0])
  {
    assert ToLower(v[0]) == ToLower(HTTP_VERSION[0]);
  }

  /** A string cut at its first blank: the token, the whole gap, and the rest. */
  lemma CutAtBlank(s: string) returns (token: string, gap: string, rest: string)
    requires HasGap(s)
    ensures token == Token(s) && rest == BehindGap(s)
    ensures s == token + gap + rest && NoBlank(token) && gap != "" && AllBlank(gap)
  {
    hide FirstBlank, SkipBlanks;
    var i := FirstBlank(s);
    var after := s[i + 1..];
    token, rest := s[..i], SkipBlanks(after);
    var blanks := after[..|after| - |rest|];
    gap := [s[i]] + blanks;
    Reassemble(s, i, |rest|);
  }

  lemma Reassemble(s: string, i: nat, n: nat)
    requires i < |s| && n <= |s| - i - 1
    ensures s == s[..i] + ([s[i]] + s[i + 1..][..|s| - i - 1 - n]) + s[i + 1..][|s| - i - 1 - n..]
  {
  }

  lemma Regroup(a: string, b: string, c: string, d: string, e: string)
    ensures a + b + (c + d + e) == a + b + c + d + e
  {
  }

  lemma TokensAfterMethod(verb: Method, rest: string) returns (t: string, gap: string, v: string)
    requires AfterMethod(verb, rest).GoodLine?
    ensures rest == t + gap + v && NoBlank(t) && gap != "" && AllBlank(gap) && EqNoCase(v, HTTP_VERSION)
    ensures TargetPath(t).Some? && AfterMethod(verb, rest) == GoodLine(verb, TargetPath(t).value, v)
  {
    hide TargetPath, EqNoCase, HasGap, Token, BehindGap;
    t, gap, v := CutAtBlank(rest);
  }

  /** Only lines of that shape are accepted: the parts can be read off the line. */
  lemma TokensOfRequestLine(line: string) returns (m: string, gap: string, t: string, gap': string, v: string)
    requires RequestLine(line).GoodLine?
    ensures IsRequestLine(line, m, gap, t, gap', v, RequestLine(line))
  {
    hide MethodOf, TargetPath, EqNoCase, HasGap, Token, BehindGap, AfterMethod, IsRequestLine;
    var rest;
    m, gap, rest := CutAtBlank(line);
    assert RequestLine(line) == AfterMethod(MethodOf(m).value, rest);
    t, gap', v := TokensAfterMethod(MethodOf(m).value, rest);
    assert line == m + gap + t + gap' + v by {
      Regroup(m, gap, t, gap', v);
    }
    PartsOfLine(line, m, gap, t, gap', v, RequestLine(line));
  }

  /** A line is accepted with a result exactly when it has parts of that shape. */
  lemma RequestLineShape(line: string, r: RequestLineResult)
    ensures RequestLine(line) == r && r.GoodLine? <==>
            exists m, gap, t, gap', v :: IsRequestLine(line, m, gap, t, gap', v, r)
  {
    hide RequestLine, IsRequestLine;
    if RequestLine(line) == r && r.GoodLine? {
      var m, gap, t, gap', v := TokensOfRequestLine(line);
    }
    if exists m, gap, t, gap', v :: IsRequestLine(line, m, gap, t, gap', v, r) {
      var m, gap, t, gap', v :| IsRequestLine(line, m, gap, t, gap', v, r);
      RequestLineOfTokens(line, m, gap, t, gap', v, r);
      ShapeIsGood(line, m, gap, t, gap', v, r);
    }
  }

  lemma ShapeIsGood(line: string, m: string, gap: string, t: string, gap': string, v: string, r: RequestLineResult)
    requires IsRequestLine(line, m, gap, t, gap', v, r)
    ensures r.GoodLine?
  {
  }

  lemma SameAsBoth(s: string, s': string, n: string)
    requires SameButCase(s, s')
    ensures SameButCase(s, n) <==> SameButCase(s', n)
  {
  }

  lemma MethodAnyCase(s: string, s': string)
    requires SameButCase(s, s')
    ensures MethodOf(s) == MethodOf(s')
  {
    hide MethodOf, SameButCase;
    forall m: Method ensures MethodOf(s) == Some(m) <==> MethodOf(s') == Some(m) {
      MethodOfExactly(s, m);
      MethodOfExactly(s', m);
      SameAsBoth(s, s', MethodName(m));
    }
  }

  /** Two targets that differ at most in the letter case of their scheme. */
  predicate SameTarget(t: string, t': string) {
    t == t' || (&& |t| >= 7 && |t'| >= 7 && SameButCase(t[..7], "http://") && SameButCase(t[..7], t'[..7]) && t[7..] == t'[7..])
  }

  lemma TargetAnyCase(t: string, t': string, p: string)
    requires SameTarget(t, t') && IsPathOf(t, p)
    ensures IsPathOf(t', p)
  {
    if t != t' {
      assert SameLetter(t[..7][0], "http://"[0]) && t[..7][0] == t[0];
      SameAsBoth(t[..7], t'[..7], "http://");
      assert t'[7..|t'| - |p|] == t'[7..][..|t| - |p| - 7] == t[7..|t| - |p|];
      assert t'[|t'| - |p|..] == t'[7..][|t| - |p| - 7..] == t[|t| - |p|..];
    }
  }

  lemma NoBlankAnyCase(s: string, s': string)
    requires SameButCase(s, s') && ' ' !in s && '\t' !in s
    ensures ' ' !in s' && '\t' !in s'
  {
  }

  lemma TargetStaysWhole(t: string, t': string)
    requires SameTarget(t, t') && ' ' !in t && '\t' !in t
    ensures ' ' !in t' && '\t' !in t'
  {
    if t != t' {
      assert forall c :: c in t[..7] || c in t[7..] ==> c in t;
      NoBlankAnyCase(t[..7], t'[..7]);
      assert t' == t'[..7] + t'[7..];
    }
  }

  /** The letter case of the method, the scheme and the version makes no difference. */
  lemma RequestLineAnyCase(line: string, m: string, gap: string, t: string, gap': string, v: string, r: RequestLineResult,
                           m': string, t': string, v': string)
    requires IsRequestLine(line, m, gap, t, gap', v, r)
    requires SameButCase(m, m') && SameTarget(t, t') && SameButCase(v, v')
    ensures RequestLine(m' + gap + t' + gap' + v') == GoodLine(r.verb, r.url, v')
  {
    hide RequestLine, SameButCase, SameTarget, IsPathOf, IsGap, MethodName;
    SameAsBoth(m, m', MethodName(r.verb));
    SameAsBoth(v, v', "HTTP/1.1");
    TargetAnyCase(t, t', r.url);
    NoBlankAnyCase(m, m');
    TargetStaysWhole(t, t');
    RequestLineOfTokens(m' + gap + t' + gap' + v', m', gap, t', gap', v', GoodLine(r.verb, r.url, v'));
  }

  /** What the parser takes from one header line (section 5 of RFC 9112). */
  datatype Field =
    | EndOfHeaders
    | Connection(keepAlive: bool)
    | ContentLength(length: CInt)
    | Host(host: string)
    | OtherField

  function HeaderField(text: string): Field {
    if text == "" then EndOfHeaders
    else if HasPrefixNoCase(text, "Connection:") then
      Connection(EqNoCase(SkipBlanks(text[11..]), "keep-alive"))
    else if HasPrefixNoCase(text, "Content-Length:") then
      ContentLength(Int32(Atol(SkipBlanks(text[15..]))))
    else if HasPrefixNoCase(text, "Host:") then
      Host(SkipBlanks(text[5..]))
    else OtherField
  }

  /** A line that begins with this field name, in any case. */
  predicate Named(text: string, name: string) {
    |name| <= |text| && SameButCase(text[..|name|], name)
  }

  /** v is s without its leading spaces and tabs. */
  predicate Stripped(s: string, v: string) {
    && |v| <= |s| && s[|s| - |v|..] == v
    && (forall i :: 0 <= i < |s| - |v| ==> s[i] == ' ' || s[i] == '\t')
    && (v != "" ==> v[0] != ' ' && v[0] != '\t')
  }

  /** What a header line says. */
  ghost predicate SaysField(text: string, f: Field) {
    match f
    case EndOfHeaders => text == ""
    case Connection(keep) =>
      Named(text, "Connection:") && exists v :: Stripped(text[11..], v) && keep == SameButCase(v, "keep-alive")
    case ContentLength(n) =>
      Named(text, "Content-Length:") && exists v, x :: Stripped(text[15..], v) && ReadsAs(v, x) && n == Int32(x)
    case Host(h) => Named(text, "Host:") && Stripped(text[5..], h)
    case OtherField =>
      text != "" && !Named(text, "Connection:") && !Named(text, "Content-Length:") && !Named(text, "Host:")
  }

  lemma StrippedOnce(s: string, v: string, w: string)
    requires Stripped(s, v) && Stripped(s, w) && |v| <= |w|
    ensures v == w
  {
    assert w != "" ==> w[0] == s[|s| - |w|];
  }

  lemma StrippedExactly(s: string, v: string)
    ensures Stripped(s, v) <==> v == SkipBlanks(s)
  {
    hide SkipBlanks, Stripped;
    BlankSuffix(s);
    if Stripped(s, v) {
      if |v| <= |SkipBlanks(s)| {
        StrippedOnce(s, v, SkipBlanks(s));
      } else {
        StrippedOnce(s, SkipBlanks(s), v);
      }
    }
  }

  lemma BlankSuffix(s: string)
    ensures Stripped(s, SkipBlanks(s))
  {
    var n := |s| - |SkipBlanks(s)|;
    assert forall i :: 0 <= i < n ==> s[..n][i] == s[i];
  }

  lemma LetterOf(text: string, name: string, i: nat)
    requires Named(text, name) && i < |name|
    ensures i < |text| && SameLetter(text[i], name[i])
  {
    assert text[..|name|][i] == text[i];
  }

  lemma NamesExclude(text: string)
    ensures Named(text, "Connection:") ==> text != "" && !Named(text, "Content-Length:") && !Named(text, "Host:")
    ensures Named(text, "Content-Length:") ==> text != "" && !Named(text, "Host:")
    ensures Named(text, "Host:") ==> text != ""
  {
    hide Named;
    if Named(text, "Connection:") {
      LetterOf(text, "Connection:", 0);
      LetterOf(text, "Connection:", 3);
      if Named(text, "Content-Length:") {
        LetterOf(text, "Content-Length:", 3);
      }
    }
    if Named(text, "Content-Length:") {
      LetterOf(text, "Content-Length:", 0);
    }
    if Named(text, "Host:") {
      LetterOf(text, "Host:", 0);
    }
  }

  /** A header line is understood exactly as that. */
  lemma HeaderFieldExactly(text: string, f: Field)
    ensures HeaderField(text) == f <==> SaysField(text, f)
  {
    hide EqNoCase, SameButCase, SkipBlanks, Stripped, Atol, ReadsAs;
    NamesExclude(text);
    NoCaseExactly(text, "Connection:");
    NoCaseExactly(text, "Content-Length:");
    NoCaseExactly(text, "Host:");
    match f
    case Connection(keep) =>
      if Named(text, "Connection:") {
        forall v ensures Stripped(text[11..], v) <==> v == SkipBlanks(text[11..]) {
          StrippedExactly(text[11..], v);
        }
        NoCaseExactly(SkipBlanks(text[11..]), "keep-alive");
      }
    case ContentLength(_) =>
      if Named(text, "Content-Length:") {
        forall v ensures Stripped(text[15..], v) <==> v == SkipBlanks(text[15..]) {
          StrippedExactly(text[15..], v);
        }
        var v := SkipBlanks(text[15..]);
        forall x: int ensures ReadsAs(v, x) <==> x == Atol(v) {
          AtolExactly(v, x);
        }
        assert Stripped(text[15..], v) && ReadsAs(v, Atol(v));
      }
    case Host(h) =>
      if Named(text, "Host:") {
        StrippedExactly(text[5..], h);
      }
    case EndOfHeaders =>
    case OtherField =>
  }

  /** A field name with its colon. */
  predicate IsName(name: string) {
    name != "" && forall i :: 0 <= i < |name| ==> (name[i] == ':' <==> i == |name| - 1)
  }

  lemma NamedBy(name: string, value: string, known: string)
    requires IsName(name) && IsName(known)
    ensures Named(name + value, known) <==> SameButCase(name, known)
  {
    var text := name + value;
    if Named(text, known) {
      var last := if |name| <= |known| then |name| - 1 else |known| - 1;
      LetterOf(text, known, last);
      assert text[last] == name[last];
      assert text[..|known|] == name;
    }
    if SameButCase(name, known) {
      assert text[..|known|] == name;
    }
  }

  lemma ThreeNames(name: string, value: string)
    requires IsName(name)
    ensures HasPrefixNoCase(name + value, "Connection:") <==> SameButCase(name, "Connection:")
    ensures HasPrefixNoCase(name + value, "Content-Length:") <==> SameButCase(name, "Content-Length:")
    ensures HasPrefixNoCase(name + value, "Host:") <==> SameButCase(name, "Host:")
  {
    hide HasPrefixNoCase, SameButCase;
    NamedBy(name, value, "Connection:");
    NamedBy(name, value, "Content-Length:");
    NamedBy(name, value, "Host:");
    NoCaseExactly(name + value, "Connection:");
    NoCaseExactly(name + value, "Content-Length:");
    NoCaseExactly(name + value, "Host:");
  }

  lemma NameAnyCase(name: string, name': string)
    requires IsName(name) && SameButCase(name, name')
    ensures IsName(name')
  {
  }

  /** The letter case of a field name makes no difference. */
  lemma HeaderNameAnyCase(name: string, name': string, value: string)
    requires IsName(name) && SameButCase(name, name')
    ensures HeaderField(name + value) == HeaderField(name' + value)
  {
    hide HasPrefixNoCase, SkipBlanks, EqNoCase, Atol, SameButCase;
    NameAnyCase(name, name');
    ThreeNames(name, value);
    ThreeNames(name', value);
    SameAsBoth(name, name', "Connection:");
    SameAsBoth(name, name', "Content-Length:");
    SameAsBoth(name, name', "Host:");
    SameSize(name, name');
    if SameButCase(name, "Connection:") { SameSize(name, "Connection:"); }
    if SameButCase(name, "Content-Length:") { SameSize(name, "Content-Length:"); }
    if SameButCase(name, "Host:") { SameSize(name, "Host:"); }
    assert (name + value)[|name|..] == value == (name' + value)[|name|..];
  }

  lemma SameSize(s: string, t: string)
    requires SameButCase(s, t)
    ensures |s| == |t|
  {
  }

  /** Neither does that of the value that asks to keep the connection. */
  lemma ConnectionLine(name: string, gap: string, v: string)
    requires SameButCase(name, "Connection:") && AllBlank(gap) && (v != "" ==> !IsBlank(v[0]))
    ensures HeaderField(name + (gap + v)) == Connection(SameButCase(v, "keep-alive"))
  {
    hide SameButCase, EqNoCase, SkipBlanks, HasPrefixNoCase;
    SameSize(name, "Connection:");
    var text := name + (gap + v);
    NoCaseExactly(text, "Connection:");
    NoCaseExactly(v, "keep-alive");
    assert text[..11] == name && text[11..] == gap + v;
    SkipBlanksOf(gap, v);
  }

  lemma SkipBlanksOf(gap: string, v: string)
    requires AllBlank(gap) && (v != "" ==> !IsBlank(v[0]))
    ensures SkipBlanks(gap + v) == v
  {
    LeadingBlanksAt(gap + v, |gap|);
  }

  /** The request fields of the parser, with the strings its pointers denote. */
  datatype Request = Request(
    state: CheckState,
    verb: Method,
    url: Option<string>,
    version: Option<string>,
    host: Option<string>,
    contentLength: CInt,
    linger: bool)

  const INITIAL := Request(RequestLineState, GET, None, None, None, 0, false)

  function WithRequestLine(q: Request, line: RequestLineResult): Request
    requires line.GoodLine?
  {
    q.(state := HeaderState, verb := line.verb, url := Some(line.url), version := Some(line.version))
  }

  function WithField(q: Request, f: Field): Request {
    match f
    case Connection(keep) => q.(linger := q.linger || keep)
    case ContentLength(n) => q.(contentLength := n)
    case Host(h) => q.(host := Some(h))
    case EndOfHeaders => q
    case OtherField => q
  }

  /** After the blank line a body is expected only of a method other than GET and HEAD. */
  predicate ExpectsBody(q: Request) {
    q.verb != GET && q.verb != HEAD && q.contentLength != 0
  }

  /** The header lines folded in the order they arrive. */
  function WithHeaders(q: Request, hs: seq<string>): (r: Request)
    ensures r.state == q.state && r.url == q.url
    decreases |hs|
  {
    if hs == [] then q else WithHeaders(WithField(q, HeaderField(hs[0])), hs[1..])
  }

  /** The value of the last Content-Length line. */
  function LastLength(hs: seq<string>, default: CInt): CInt {
    if hs == [] then default
    else match HeaderField(hs[|hs| - 1])
      case ContentLength(n) => n
      case _ => LastLength(hs[..|hs| - 1], default)
  }

  /** The value of the last Host line. */
  function LastHost(hs: seq<string>, default: Option<string>): Option<string> {
    if hs == [] then default
    else match HeaderField(hs[|hs| - 1])
      case Host(h) => Some(h)
      case _ => LastHost(hs[..|hs| - 1], default)
  }

  ghost predicate KeepsAlive(hs: seq<string>) {
    exists i :: 0 <= i < |hs| && HeaderField(hs[i]) == Connection(true)
  }

  lemma {:induction false} WithHeadersAppend(q: Request, hs: seq<string>, h: string)
    ensures WithHeaders(q, hs + [h]) == WithField(WithHeaders(q, hs), HeaderField(h))
    decreases |hs|
  {
    if hs == [] {
      assert WithHeaders(q, [h]) == WithHeaders(WithField(q, HeaderField(h)), [h][1..]);
    } else {
      assert (hs + [h])[1..] == hs[1..] + [h];
      WithHeadersAppend(WithField(q, HeaderField(hs[0])), hs[1..], h);
    }
  }

  /** The last Content-Length and the last Host win, and any keep-alive line sets the flag. */
  lemma {:induction false} HeadersSummary(q: Request, hs: seq<string>)
    ensures WithHeaders(q, hs) == q.(
                                    contentLength := LastLength(hs, q.contentLength),
                                    host := LastHost(hs, q.host),
                                    linger := q.linger || KeepsAlive(hs))
    decreases |hs|
  {
    if hs == [] {
    } else {
      var init, h := hs[..|hs| - 1], hs[|hs| - 1];
      assert hs == init + [h];
      HeadersSummary(q, init);
      WithHeadersAppend(q, init, h);
      if KeepsAlive(init) {
        var i :| 0 <= i < |init| && HeaderField(init[i]) == Connection(true);
        assert HeaderField(hs[i]) == Connection(true);
      }
      if HeaderField(h) == Connection(true) {
        assert HeaderField(hs[|hs| - 1]) == Connection(true);
      }
    }
  }
}
