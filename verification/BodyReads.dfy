/** A request body that arrives in any number of reads, `process_read` being called after each. */
module BodyReads {
  import opened CString
  import opened CTypes
  import opened Framing
  import opened HttpSyntax
  import opened RequestMachine

  lemma SlicesJoin(a: string, c: string, k: nat)
    requires k <= |a|
    ensures (a + c)[k..] == a[k..] + c && (a + c)[..k] == a[..k]
  {
  }

  /** The scan over a body resumes where it stopped: what arrives later is scanned as if it had been there. */
  lemma {:induction false} ConsumedAppend(a: string, c: string)
    ensures Consumed(a + c) == Consumed(a) + Consumed(a[Consumed(a)..] + c)
    decreases |a|
  {
    hide PlainLength, Status, Consumed;
    ScanAppend(a, c);
    if Status(a) == LINE_OK {
      var k := PlainLength(a) + 2;
      LineConsumed(a);
      LineConsumed(a + c);
      SlicesJoin(a, c, k);
      ConsumedAppend(a[k..], c);
      assert a[k..][Consumed(a[k..])..] == a[Consumed(a)..];
    } else {
      var k := PlainLength(a);
      NoLineAhead(a);
      SlicesJoin(a, c, k);
      assert NoEol((a + c)[..k]);
      PlainConsumed(a + c, k);
    }
  }

  /** Plain bytes in front are passed over. */
  lemma PlainConsumed(s: string, k: nat)
    requires k <= |s| && NoEol(s[..k])
    ensures Consumed(s) == k + Consumed(s[k..])
  {
    hide PlainLength, Status, Consumed;
    ScanFrom(s, k);
    if Status(s) == LINE_OK {
      LineConsumed(s);
      LineConsumed(s[k..]);
      assert s[k..][PlainLength(s[k..]) + 2..] == s[PlainLength(s) + 2..];
    } else {
      NoLineAhead(s);
      NoLineAhead(s[k..]);
    }
  }

  /** What has arrived of the body that begins at position s. */
  function BodySoFar(have: string, s: nat): string {
    if s <= |have| then have[s..] else ""
  }

  /** With these bytes received, this read completes the body: it is complete counted from where the scan
      over what had arrived of it stands. */
  predicate ReadCompletes(have: string, chunk: string, s: nat, length: CInt) {
    s <= |have + chunk| && Complete(length, have + chunk, s + Consumed(BodySoFar(have, s)))
  }

  predicate SomeReadCompletes(have: string, chunks: seq<string>, s: nat, length: CInt)
    decreases |chunks|
  {
    chunks != [] &&
    (ReadCompletes(have, chunks[0], s, length) || SomeReadCompletes(have + chunks[0], chunks[1..], s, length))
  }

  /** The reads of a body. */
  lemma {:induction false} FeedBody(m: Machine, chunks: seq<string>, s: nat)
    requires m.Valid() && m.req.state.ContentState? && |m.input| + |Concat(chunks)| <= INT_MAX
    requires s <= |m.input| && m.checked == s + Consumed(m.input[s..])
    ensures Feed(m, chunks).1 == if SomeReadCompletes(m.input, chunks, s, m.req.contentLength) then Respond(m.req.url.value)
                                 else NoRequest
    decreases |chunks|
  {
    hide Loop, Consumed, Complete;
    if chunks == [] {
    } else {
      var c := chunks[0];
      var m1 := m.Receive(c);
      ReceiveValid(m, c);
      BodyCall(m1);
      var (n, o) := Process(m1);
      if o.NoRequest? {
        ConsumedAppend(m.input[s..], c);
        SlicesJoin(m.input, c, s);
        assert m.Pending() == m.input[s..][Consumed(m.input[s..])..];
        FeedBody(n, chunks[1..], s);
      }
    }
  }

  /** A line that was not complete ends behind the bytes that were there. */
  lemma LineEndsBehind(a: string, c: string)
    requires Status(a) != LINE_OK && Status(a + c) == LINE_OK
    ensures PlainLength(a + c) + 2 > |a|
  {
    hide PlainLength;
    var w, k := a + c, PlainLength(a + c);
    if k + 2 <= |a| {
      assert forall i :: 0 <= i < k + 2 ==> a[i] == w[i];
      PlainLengthAt(a, k);
    }
  }

  /** A body that is not reached yet begins behind the bytes received. */
  lemma EntryBehind(m: Machine, more: string)
    requires m.Valid() && !m.req.state.ContentState? && Status(m.Pending()) != LINE_OK
    requires m.Receive(more).Valid() && Entry(m.Receive(more)).req.state.ContentState?
    ensures |m.input| < Entry(m.Receive(more)).checked
  {
    hide PlainLength, Status, OnLine;
    var w := m.Receive(more);
    ReceiveValid(m, more);
    if Status(w.Pending()) == LINE_OK {
      LineEndsBehind(m.Pending(), more);
      EntryTurn(w);
    } else {
      EntryWaits(w);
    }
  }

  /** The reads of a request whose body is reached by the last of them at the latest. */
  lemma {:induction false} FeedToBody(m: Machine, chunks: seq<string>)
    requires m.Valid() && !m.req.state.ContentState? && Process(m) == (m, NoRequest)
    requires m.Receive(Concat(chunks)).Valid() && Entry(m.Receive(Concat(chunks))).req.state.ContentState?
    requires |m.input| + |Concat(chunks)| <= INT_MAX
    ensures var e := Entry(m.Receive(Concat(chunks)));
            Feed(m, chunks).1 ==
            if SomeReadCompletes(m.input, chunks, e.checked, e.req.contentLength) then Respond(e.req.url.value)
            else NoRequest
    decreases |chunks|
  {
    hide Loop, Entry, Consumed, Complete, PlainLength, Status;
    var e := Entry(m.Receive(Concat(chunks)));
    Waiting(m, true);
    EntryBehind(m, Concat(chunks));
    if chunks == [] {
      assert false;
    } else {
      var c, rest := chunks[0], Concat(chunks[1..]);
      var m1 := m.Receive(c);
      ReceiveValid(m, c);
      assert m1.Receive(rest) == m.Receive(Concat(chunks)) by {
        assert (m.input + c) + rest == m.input + (c + rest);
      }
      EntryAppend(m1, rest);
      ProcessFromEntry(m1);
      if Entry(m1).req.state.ContentState? {
        FirstBodyRead(m, c, chunks[1..]);
      } else {
        var n := Process(m1).0;
        ProcessTwice(m1);
        FeedToBody(n, chunks[1..]);
        Waiting(n, true);
        EntryBehind(n, rest);
      }
    }
  }

  /** The read that brings the body's first byte, or the end of the head. */
  lemma FirstBodyRead(m: Machine, c: string, chunks: seq<string>)
    requires m.Valid() && m.Receive(c).Valid() && !m.req.state.ContentState?
    requires Entry(m.Receive(c)).req.state.ContentState? && |m.input| < Entry(m.Receive(c)).checked
    requires Process(m.Receive(c)) == Process(Entry(m.Receive(c)))
    requires |m.input| + |c| + |Concat(chunks)| <= INT_MAX
    ensures var e := Entry(m.Receive(c));
            Feed(m, [c] + chunks).1 ==
            if SomeReadCompletes(m.input, [c] + chunks, e.checked, e.req.contentLength) then Respond(e.req.url.value)
            else NoRequest
  {
    hide Loop, Entry, Complete, Consumed, Feed, SomeReadCompletes, ReadCompletes;
    var m1 := m.Receive(c);
    var e := Entry(m1);
    FeedCons(m, c, chunks);
    SomeReadCons(m.input, c, chunks, e.checked, e.req.contentLength);
    FirstCompletes(m.input, c, e.checked, e.req.contentLength);
    BodyCall(e);
    var (n, o) := Process(e);
    assert e.input == n.input == m.input + c && n.req == e.req;
    if o.NoRequest? {
      FeedBody(n, chunks, e.checked);
    }
  }

  lemma FirstCompletes(have: string, c: string, s: nat, length: CInt)
    requires |have| < s <= |have + c|
    ensures ReadCompletes(have, c, s, length) <==> Complete(length, have + c, s)
  {
    hide Consumed, Complete;
    NothingConsumed();
  }

  lemma FeedCons(m: Machine, c: string, chunks: seq<string>)
    requires m.Valid() && m.Receive(c).Valid()
    ensures var (n, o) := Process(m.Receive(c));
            Feed(m, [c] + chunks) == if o.NoRequest? then Feed(n, chunks) else (n, o)
  {
    hide Loop;
    assert ([c] + chunks)[1..] == chunks;
  }

  lemma SomeReadCons(have: string, c: string, chunks: seq<string>, s: nat, length: CInt)
    ensures SomeReadCompletes(have, [c] + chunks, s, length) <==>
            ReadCompletes(have, c, s, length) || SomeReadCompletes(have + c, chunks, s, length)
  {
    hide ReadCompletes;
    assert ([c] + chunks)[1..] == chunks;
  }

  lemma NothingConsumed()
    ensures Consumed("") == 0
  {
  }

  /** What the first i reads bring. */
  function Received(chunks: seq<string>, i: nat): string
    requires i <= |chunks|
  {
    Concat(chunks[..i])
  }

  lemma ReceivedCons(chunks: seq<string>, i: nat)
    requires 0 < i <= |chunks|
    ensures Received(chunks, i) == chunks[0] + Received(chunks[1..], i - 1)
  {
    assert chunks[..i][1..] == chunks[1..][..i - 1];
  }

  ghost predicate CompletesAt(have: string, chunks: seq<string>, i: nat, s: nat, length: CInt)
    requires i < |chunks|
  {
    ReadCompletes(have + Received(chunks, i), chunks[i], s, length)
  }

  lemma CompletesLater(have: string, chunks: seq<string>, i: nat, s: nat, length: CInt)
    requires 0 < i < |chunks|
    ensures CompletesAt(have, chunks, i, s, length) <==> CompletesAt(have + chunks[0], chunks[1..], i - 1, s, length)
  {
    hide ReadCompletes, Received;
    ReceivedCons(chunks, i);
    assert (have + chunks[0]) + Received(chunks[1..], i - 1) == have + Received(chunks, i);
  }

  lemma {:induction false} SomeReadAt(have: string, chunks: seq<string>, s: nat, length: CInt)
    ensures SomeReadCompletes(have, chunks, s, length) <==>
            exists i :: 0 <= i < |chunks| && CompletesAt(have, chunks, i, s, length)
    decreases |chunks|
  {
    hide ReadCompletes, CompletesAt;
    if chunks == [] {
    } else {
      var rest, now := chunks[1..], have + chunks[0];
      CompletesFirst(have, chunks, s, length);
      SomeReadAt(now, rest, s, length);
      if i :| 0 <= i < |chunks| && CompletesAt(have, chunks, i, s, length) {
        if i > 0 {
          CompletesLater(have, chunks, i, s, length);
        }
      }
      if i :| 0 <= i < |rest| && CompletesAt(now, rest, i, s, length) {
        CompletesLater(have, chunks, i + 1, s, length);
      }
    }
  }

  lemma CompletesFirst(have: string, chunks: seq<string>, s: nat, length: CInt)
    requires chunks != []
    ensures CompletesAt(have, chunks, 0, s, length) <==> ReadCompletes(have, chunks[0], s, length)
  {
    assert have + Received(chunks, 0) == have;
  }

  /** The first answer on a fresh connection, to bytes in some reads and in a single one. */
  function AnswerIn(chunks: seq<string>): Outcome {
    Feed(Initial(""), chunks).1
  }

  function AnswerAtOnce(input: string): Outcome {
    Process(Initial(input)).1
  }

  ghost predicate SomeReadOf(chunks: seq<string>, s: nat, length: CInt) {
    exists i :: 0 <= i < |chunks| && CompletesAt("", chunks, i, s, length)
  }

  /** A request with a body, in any reads: it is answered if and only if some read completes the body,
      counted from where the scan over what had arrived before stands. So the answer is that of a single
      read if and only if some read completes the body or the whole input does not. */
  lemma BodyInReads(chunks: seq<string>)
    requires |Concat(chunks)| <= INT_MAX
    ensures var (whole, q) := (Concat(chunks), Interpret(Concat(chunks)).0);
            var (s, url) := (BodyStartOf(whole), q.url);
            var some := SomeReadOf(chunks, s, q.contentLength);
            q.state.ContentState? ==>
              && s <= |whole| && url.Some?
              && AnswerIn(chunks) == (if some then Respond(url.value) else NoRequest)
              && (AnswerIn(chunks) == AnswerAtOnce(whole) <==> (some <==> Complete(q.contentLength, whole, s)))
  {
    hide Interpret, BodyStartOf, Loop, Entry, Feed, Concat, Complete, SomeReadCompletes, SomeReadOf, Initial;
    var whole := Concat(chunks);
    if Interpret(whole).0.state.ContentState? {
      WholeBody(whole);
      FromNothing(whole);
      FeedToBody(Initial(""), chunks);
      SomeReadIs(chunks, BodyStartOf(whole), Interpret(whole).0.contentLength);
    }
  }

  lemma FromNothing(whole: string)
    ensures Process(Initial("")) == (Initial(""), NoRequest)
    ensures Initial("").Receive(whole) == Initial(whole) && Initial(whole).Valid()
    ensures Initial("").input == "" && !Initial("").req.state.ContentState?
  {
    WaitingTurn(Initial(""));
    assert "" + whole == whole;
  }

  lemma SomeReadIs(chunks: seq<string>, s: nat, length: CInt)
    ensures SomeReadCompletes("", chunks, s, length) <==> SomeReadOf(chunks, s, length)
  {
    hide CompletesAt;
    SomeReadAt("", chunks, s, length);
  }

  /** A request with a body in a single read. */
  lemma WholeBody(whole: string)
    requires |whole| <= INT_MAX && Interpret(whole).0.state.ContentState?
    ensures BodyStartOf(whole) <= |whole| && Interpret(whole).0.url.Some?
    ensures Entry(Initial(whole)) == Machine(Interpret(whole).0, whole, BodyStartOf(whole), BodyStartOf(whole))
    ensures AnswerAtOnce(whole) ==
            if Complete(Interpret(whole).0.contentLength, whole, BodyStartOf(whole)) then Respond(Interpret(whole).0.url.value)
            else NoRequest
  {
    hide Interpret, BodyStartOf, Loop, Entry, Complete, Overflows, Consumed;
    ProcessIsInterpret(whole);
    ProcessFromEntry(Initial(whole));
    BodyCall(Entry(Initial(whole)));
  }

  /** Where the 32-bit sum does not overflow, a read completes the body if and only if as many bytes of it
      have arrived as it is long and as the scan over the earlier ones has passed over, together. */
  lemma CompletesPlainly(have: string, chunk: string, s: nat, length: CInt)
    requires length <= INT_MAX - |have + chunk|
    ensures ReadCompletes(have, chunk, s, length) <==>
            s <= |have + chunk| && |BodySoFar(have + chunk, s)| >= length + Consumed(BodySoFar(have, s))
  {
    hide Consumed, Split, Unlines;
    if s <= |have + chunk| {
      UnlinesOfSplit((have + chunk)[s + Consumed(BodySoFar(have, s))..]);
    }
  }

  // ----- Two reads -----

  /** A body cut in two, exactly: after a first read too short to complete it, a second read gets the answer
      of one read of both if and only if the scan passed over none of the first part, or the body is
      incomplete anyway, or so much arrived that it is complete even counted from where the scan stood. */
  lemma BodyInTwoReads(m: Machine, b2: string)
    requires m.Valid() && m.req.state.ContentState?
    requires 0 <= m.req.contentLength <= INT_MAX - |m.input| - |b2|
    requires |m.Pending()| < m.req.contentLength
    ensures Process(m).1 == NoRequest
    ensures m.Receive(b2).Valid() && Process(m).0.Receive(b2).Valid()
    ensures var split := Process(Process(m).0.Receive(b2)).1;
            var whole := Process(m.Receive(b2)).1;
            var total := |m.Pending()| + |b2|;
            var passed := Consumed(m.Pending());
            && split == (if total >= m.req.contentLength + passed then Respond(m.req.url.value) else NoRequest)
            && (split == whole <==>
                  passed == 0 || total < m.req.contentLength || total >= m.req.contentLength + passed)
  {
    hide Loop, Consumed;
    PlainlyComplete(m.req.contentLength, m.input, m.checked);
    BodyCall(m);
    var n := Process(m).0;
    ReceiveValid(m, b2);
    ReceiveValid(n, b2);
    PlainlyComplete(m.req.contentLength, m.input + b2, n.checked);
    BodyCall(n.Receive(b2));
    PlainlyComplete(m.req.contentLength, m.input + b2, m.checked);
    BodyCall(m.Receive(b2));
  }

  /** Without overflow the body is complete when all its bytes are there. */
  lemma PlainlyComplete(length: CInt, input: string, at: nat)
    requires at <= |input| && length <= INT_MAX - |input|
    ensures Complete(length, input, at) <==> |input| >= length + at
  {
    UnlinesOfSplit(input[at..]);
  }

  /** The head of a request with a body to come, received in one read. */
  ghost predicate IsHead(head: string) {
    Interpret(head).0.state.ContentState? && Interpret(head).1.NoRequest? && BodyStartOf(head) == |head|
  }

  /** More bytes do not change the head. */
  lemma HeadOfMore(head: string, more: string)
    requires IsHead(head) && |head| + |more| <= INT_MAX
    ensures Interpret(head + more).0 == Interpret(head).0 && BodyStartOf(head + more) == |head|
  {
    hide Interpret, BodyStartOf, Loop, Entry, Consumed, Overflows;
    ProcessIsInterpret(head);
    ProcessIsInterpret(head + more);
    EntryAppend(Initial(head), more);
    assert Initial(head).Receive(more) == Initial(head + more);
  }

  /** The same for a connection that starts with any request head: its body in two reads and its body in
      one read get the same answer exactly under this condition. */
  lemma BodyAfterHead(head: string, b1: string, b2: string)
    ensures var cl, split := Interpret(head).0.contentLength, AnswerIn([head, b1, b2]);
            IsHead(head) && |b1| < cl <= INT_MAX - |head| - |b1| - |b2| ==>
              && Interpret(head).0.url.Some?
              && split == (if |b1| + |b2| >= cl + Consumed(b1) then Respond(Interpret(head).0.url.value) else NoRequest)
              && AnswerIn([head, b1 + b2]) == (if |b1| + |b2| >= cl then Respond(Interpret(head).0.url.value) else NoRequest)
              && (split == AnswerIn([head, b1 + b2]) <==>
                    Consumed(b1) == 0 || |b1| + |b2| < cl || |b1| + |b2| >= cl + Consumed(b1))
  {
    hide Interpret, BodyStartOf, IsHead, Consumed, Concat, AnswerIn, AnswerAtOnce, SomeReadOf, Complete;
    if !(IsHead(head) && |b1| < Interpret(head).0.contentLength <= INT_MAX - |head| - |b1| - |b2|) {
      return;
    }
    var cl, body := Interpret(head).0.contentLength, b1 + b2;
    HeadOfMore(head, body);
    HeadState(head);
    ThreeReads(head, b1, b2);
    ThreeReads(head, body, "");
    BodyInReads([head, b1, b2]);
    BodyInReads([head, body]);
    ThreeReadsComplete(head, b1, b2, cl);
    TwoReadsComplete(head, body, cl);
  }

  lemma HeadState(head: string)
    requires IsHead(head)
    ensures Interpret(head).0.state.ContentState?
  {
  }

  lemma ThreeReads(a: string, b: string, c: string)
    ensures Concat([a, b, c]) == a + (b + c) && Concat([a, b]) == a + b
    ensures Received([a, b, c], 0) == "" && Received([a, b, c], 1) == a && Received([a, b, c], 2) == a + b
    ensures Received([a, b], 0) == "" && Received([a, b], 1) == a
  {
    assert [a, b, c][1..] == [b, c] && [b, c][1..] == [c] && [c][1..] == [] && [a, b][1..] == [b] && [b][1..] == [];
    assert Concat([c]) == c && Concat([b]) == b;
    assert [a, b, c][..0] == [] && [a, b, c][..1] == [a] && [a, b, c][..2] == [a, b];
    assert [a, b][..0] == [] && [a, b][..1] == [a] && [a][1..] == [];
    assert a + "" == a;
  }

  /** Which of the reads of a head and a body can complete the body. */
  lemma ThreeReadsComplete(head: string, b1: string, b2: string, cl: CInt)
    requires |b1| < cl <= INT_MAX - |head| - |b1| - |b2|
    ensures SomeReadOf([head, b1, b2], |head|, cl) <==> |b1| + |b2| >= cl + Consumed(b1)
  {
    hide Consumed, Received, Complete, ReadCompletes;
    var chunks := [head, b1, b2];
    ThreeReads(head, b1, b2);
    NothingConsumed();
    Completing("", head, |head|, cl);
    Completing(head, b1, |head|, cl);
    Completing(head + b1, b2, |head|, cl);
    assert (head + b1)[|head|..] == b1;
    assert CompletesAt("", chunks, 0, |head|, cl) == ReadCompletes("", head, |head|, cl);
    assert CompletesAt("", chunks, 1, |head|, cl) == ReadCompletes(head, b1, |head|, cl);
    assert CompletesAt("", chunks, 2, |head|, cl) == ReadCompletes(head + b1, b2, |head|, cl);
  }

  lemma TwoReadsComplete(head: string, body: string, cl: CInt)
    requires 0 < cl <= INT_MAX - |head| - |body|
    ensures SomeReadOf([head, body], |head|, cl) <==> |body| >= cl
  {
    hide Consumed, Received, Complete, ReadCompletes;
    var chunks := [head, body];
    ThreeReads(head, body, "");
    NothingConsumed();
    Completing("", head, |head|, cl);
    Completing(head, body, |head|, cl);
    assert CompletesAt("", chunks, 0, |head|, cl) == ReadCompletes("", head, |head|, cl);
    assert CompletesAt("", chunks, 1, |head|, cl) == ReadCompletes(head, body, |head|, cl);
  }

  lemma Completing(have: string, chunk: string, s: nat, cl: CInt)
    requires s <= |have + chunk| && cl <= INT_MAX - |have + chunk|
    ensures "" + have == have
    ensures ReadCompletes(have, chunk, s, cl) <==> |have + chunk| - s >= cl + Consumed(BodySoFar(have, s))
    ensures |have| == s ==> BodySoFar(have, s) == ""
    ensures |have| < s ==> BodySoFar(have, s) == ""
  {
    hide Consumed, Complete, ReadCompletes;
    CompletesPlainly(have, chunk, s, cl);
  }
}
