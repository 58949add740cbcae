/** How a byte stream is cut into CRLF-terminated lines (section 2.2 of RFC 9112). */
module Framing {
  import opened CString

  predicate IsEol(c: char) { c == CR || c == LF }

  predicate NoEol(s: string) { forall i :: 0 <= i < |s| ==> !IsEol(s[i]) }

  const CRLF: string := [CR, LF]

  /** The length of the longest prefix without CR and LF. */
  function PlainLength(s: string): (k: nat)
    ensures k <= |s| && (forall i :: 0 <= i < k ==> !IsEol(s[i]))
    ensures k < |s| ==> IsEol(s[k])
  {
    if s == "" || IsEol(s[0]) then 0 else 1 + PlainLength(s[1..])
  }

  datatype LineStatus = LINE_OK | LINE_BAD | LINE_OPEN

  /** Whether a stream starts with a complete line, cannot start with one, or is too short to tell. */
  function Status(s: string): (r: LineStatus)
    ensures r == LINE_OK ==> PlainLength(s) + 2 <= |s|
  {
    var k := PlainLength(s);
    if k == |s| || (s[k] == CR && k + 1 == |s|) then LINE_OPEN
    else if s[k] == CR && s[k + 1] == LF then LINE_OK
    else LINE_BAD
  }

  lemma PlainLengthAt(s: string, k: nat)
    requires k <= |s| && (forall i :: 0 <= i < k ==> !IsEol(s[i])) && (k < |s| ==> IsEol(s[k]))
    ensures PlainLength(s) == k
  {
    var j := PlainLength(s);
  }

  /** Bytes already known to be plain can be skipped before scanning. */
  lemma ScanFrom(s: string, i: nat)
    requires i <= |s| && NoEol(s[..i])
    ensures PlainLength(s) == i + PlainLength(s[i..]) && Status(s) == Status(s[i..])
  {
    var k := i + PlainLength(s[i..]);
    assert forall j :: 0 <= j < i ==> s[j] == s[..i][j];
    assert forall j :: i <= j < |s| ==> s[j] == s[i..][j - i];
    PlainLengthAt(s, k);
  }

  /** A verdict of "complete line" or "bad line" survives more input; so does the scanned prefix. */
  lemma ScanAppend(s: string, more: string)
    ensures Status(s) != LINE_OPEN ==> Status(s + more) == Status(s) && PlainLength(s + more) == PlainLength(s)
    ensures PlainLength(s + more) >= PlainLength(s)
  {
    var k := PlainLength(s);
    var t := s + more;
    assert t[..k] == s[..k];
    if k < |s| {
      PlainLengthAt(t, k);
    } else {
      ScanFrom(t, k);
    }
  }

  /** Lines rejoined with their terminators. */
  function Unlines(ls: seq<string>): string {
    if ls == [] then "" else ls[0] + CRLF + Unlines(ls[1..])
  }

  /** The complete lines at the front of a stream, and what is left after them. */
  function Split(s: string): (r: (seq<string>, string))
    ensures forall i :: 0 <= i < |r.0| ==> NoEol(r.0[i])
    ensures Status(r.1) != LINE_OK
    decreases |s|
  {
    if Status(s) != LINE_OK then ([], s)
    else
      var k := PlainLength(s);
      var rest := Split(s[k + 2..]);
      ([s[..k]] + rest.0, rest.1)
  }

  lemma LineAhead(l: string, rest: string)
    requires NoEol(l)
    ensures Status(l + CRLF + rest) == LINE_OK && PlainLength(l + CRLF + rest) == |l|
    ensures (l + CRLF + rest)[..|l|] == l && (l + CRLF + rest)[|l| + 2..] == rest
  {
    var s := l + CRLF + rest;
    assert forall j :: 0 <= j < |l| ==> s[j] == l[j];
    assert s[..|l|] == l;
    assert s[|l|] == CRLF[0] && s[|l| + 1] == CRLF[1];
    PlainLengthAt(s, |l|);
  }

  lemma UnlinesCons(l: string, ls: seq<string>, rest: string)
    ensures Unlines([l] + ls) + rest == l + CRLF + (Unlines(ls) + rest)
  {
    assert ([l] + ls)[1..] == ls;
    assert (l + CRLF + Unlines(ls)) + rest == l + CRLF + (Unlines(ls) + rest);
  }

  lemma LineBehind(s: string)
    requires Status(s) == LINE_OK
    ensures s == s[..PlainLength(s)] + CRLF + s[PlainLength(s) + 2..]
  {
  }

  /** Rejoining the delivered lines gives back the consumed bytes. */
  lemma {:induction false} UnlinesOfSplit(s: string)
    ensures Unlines(Split(s).0) + Split(s).1 == s
    decreases |s|
  {
    if Status(s) != LINE_OK {
      assert "" + s == s;
    } else {
      var k := PlainLength(s);
      var rest := s[k + 2..];
      UnlinesOfSplit(rest);
      UnlinesCons(s[..k], Split(rest).0, Split(rest).1);
      LineBehind(s);
    }
  }

  lemma SplitCons(l: string, rest: string)
    requires NoEol(l)
    ensures Split(l + CRLF + rest) == ([l] + Split(rest).0, Split(rest).1)
  {
    LineAhead(l, rest);
  }

  lemma ConsAppend<T>(x: T, a: seq<T>, b: seq<T>)
    ensures [x] + (a + b) == ([x] + a) + b
  {
  }

  /** The cut is the only one: lines put in front of a stream come back, then the stream's own lines. */
  lemma {:induction false} SplitOfUnlines(ls: seq<string>, rest: string)
    requires forall i :: 0 <= i < |ls| ==> NoEol(ls[i])
    ensures Split(Unlines(ls) + rest).0 == ls + Split(rest).0
    ensures Split(Unlines(ls) + rest).1 == Split(rest).1
    decreases |ls|
  {
    if ls == [] {
      assert "" + rest == rest;
    } else {
      var l, tail := ls[0], ls[1..];
      assert ls == [l] + tail;
      calc {
        Split(Unlines(ls) + rest);
        { UnlinesCons(l, tail, rest); }
        Split(l + CRLF + (Unlines(tail) + rest));
        { SplitCons(l, Unlines(tail) + rest); }
        ([l] + Split(Unlines(tail) + rest).0, Split(Unlines(tail) + rest).1);
        { SplitOfUnlines(tail, rest); }
        ([l] + (tail + Split(rest).0), Split(rest).1);
        { ConsAppend(l, tail, Split(rest).0); }
        (ls + Split(rest).0, Split(rest).1);
      }
    }
  }
}
