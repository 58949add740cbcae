/** The incremental request parser as a function on the bytes received so far, what it computes in
    terms of whole lines, and what cutting the input into several reads does to it. */
module RequestMachine {
  import opened CString
  import opened CTypes
  import opened Framing
  import opened HttpSyntax

  datatype Outcome = NoRequest | Malformed | Respond(url: string)

  /** The parser between two steps: everything received since `init`, the start of the line being
      collected, and how far the scan has come. */
  datatype Machine = Machine(req: Request, input: string, start: nat, checked: nat) {
    ghost predicate Valid() {
      && start <= checked <= |input|
      && (forall i :: start <= i < checked ==> !IsEol(input[i]))
      && (req.state != RequestLineState ==> req.url.Some?)
    }

    function Pending(): string
      requires checked <= |input|
    {
      input[checked..]
    }

    /** More bytes arrive. */
    function Receive(more: string): Machine { this.(input := input + more) }

    /** The completion test of the body, in the source's 32-bit arithmetic. */
    predicate BodyComplete() { |input| >= Int32(req.contentLength + checked) }

    /** Where the scan stops: at the terminator of the line, or where it has to wait. */
    function ScanEnd(): (k: nat)
      requires checked <= |input|
      ensures checked <= k <= |input|
    {
      checked + PlainLength(Pending())
    }

    /** The line just completed, as the C string the parser sees. */
    function Line(): string
      requires start <= checked <= |input|
    {
      Cut(input[start..ScanEnd()])
    }

    /** The machine after that line. */
    function NextLine(): Machine
      requires checked <= |input|
    {
      this.(start := ScanEnd() + 2, checked := ScanEnd() + 2)
    }
  }

  function Initial(input: string): Machine { Machine(INITIAL, input, 0, 0) }

  /** One turn of the loop of `process_read`: it ends the call, or goes on with a new machine and
      a flag that says whether the turn ended with LINE_OK. */
  datatype Turn = Stop(m: Machine, outcome: Outcome) | Go(m: Machine, lineOk: bool)

  /** The turn that handles a completed line: n is the machine after the line. */
  function OnLine(n: Machine, line: string): (t: Turn)
    requires n.Valid()
    ensures t.m.Valid() && t.m.input == n.input && t.m.start == n.start && t.m.checked == n.checked
    ensures t.Stop? ==> !t.outcome.NoRequest?
    ensures t.Stop? && t.outcome.Respond? ==> t.m.req.url == Some(t.outcome.url)
    ensures if n.req.state.ContentState? then t.m.req == n.req
            else if t.Go? then t.lineOk else !t.m.req.state.ContentState?
  {
    match n.req.state
    case RequestLineState =>
      var r := RequestLine(line);
      if r.BadLine? then Stop(n, Malformed) else Go(n.(req := WithRequestLine(n.req, r)), true)
    case HeaderState =>
      var f := HeaderField(line);
      if !f.EndOfHeaders? then Go(n.(req := WithField(n.req, f)), true)
      else if ExpectsBody(n.req) then Go(n.(req := n.req.(state := ContentState)), true)
      else Stop(n, Respond(n.req.url.value))
    case ContentState =>
      if n.BodyComplete() then Stop(n, Respond(n.req.url.value)) else Go(n, false)
  }

  function Take(m: Machine, lineOk: bool): (t: Turn)
    requires m.Valid()
    ensures t.m.Valid() && t.m.input == m.input && m.start <= t.m.start && m.checked <= t.m.checked
    ensures t.Go? ==> Measure(t.m, t.lineOk) < Measure(m, lineOk)
    ensures t.Stop? && t.outcome.Respond? ==> t.m.req.url == Some(t.outcome.url)
    ensures if m.req.state.ContentState? then t.m.req == m.req
            else if t.Go? then t.lineOk else !t.m.req.state.ContentState?
  {
    if m.req.state.ContentState? && lineOk then
      var n := m.(start := m.checked);
      if n.BodyComplete() then Stop(n, Respond(n.req.url.value)) else Go(n, false)
    else if Status(m.Pending()) != LINE_OK then Stop(m.(checked := m.ScanEnd()), NoRequest)
    else OnLine(m.NextLine(), m.Line())
  }

  /** Two for each byte not yet scanned, and one for the body test that comes before the scan. */
  function Measure(m: Machine, lineOk: bool): nat
    requires m.checked <= |m.input|
  {
    2 * (|m.input| - m.checked) + if m.req.state.ContentState? && lineOk then 1 else 0
  }

  /** The loop of `process_read`. */
  function Loop(m: Machine, lineOk: bool): (r: (Machine, Outcome))
    requires m.Valid()
    ensures r.0.Valid() && r.0.input == m.input
    ensures m.start <= r.0.start && m.checked <= r.0.checked
    ensures r.1.Respond? ==> r.0.req.url == Some(r.1.url)
    ensures m.req.state.ContentState? ==> r.0.req == m.req
    decreases Measure(m, lineOk)
  {
    match Take(m, lineOk)
    case Stop(n, o) => (n, o)
    case Go(n, ok) => Loop(n, ok)
  }

  /** The loop, one turn at a time. */
  lemma LoopTurn(m: Machine, lineOk: bool)
    requires m.Valid()
    ensures var body := m.req.state.ContentState? && lineOk;
            if !body && Status(m.Pending()) != LINE_OK then Loop(m, lineOk) == (m.(checked := m.ScanEnd()), NoRequest)
            else
              var n := if body then m.(start := m.checked) else m.NextLine();
              var t := OnLine(n, if body then "" else m.Line());
              && n.Valid()
              && (t.Stop? ==> Loop(m, lineOk) == (t.m, t.outcome))
              && (t.Go? ==> Loop(m, lineOk) == Loop(t.m, t.lineOk) && Measure(t.m, t.lineOk) < Measure(m, lineOk))
  {
    hide Cut, PlainLength, Status, RequestLine, HeaderField, WithField;
  }

  /** One call of `process_read`. */
  function Process(m: Machine): (r: (Machine, Outcome))
    requires m.Valid()
  {
    Loop(m, true)
  }

  /** Where the loop first stands before a body, or where it ends if it does not reach one. */
  function Entry(m: Machine): (e: Machine)
    requires m.Valid()
    ensures e.Valid() && e.input == m.input && m.checked <= e.checked
    ensures m.req.state.ContentState? ==> e == m
    decreases Measure(m, true)
  {
    if m.req.state.ContentState? then m
    else match Take(m, true)
      case Stop(n, _) => n
      case Go(n, _) => Entry(n)
  }

  /** The call goes on from there, and ends in the body if and only if there is one. */
  lemma {:induction false} ProcessFromEntry(m: Machine)
    requires m.Valid()
    ensures if Entry(m).req.state.ContentState? then Process(m) == Process(Entry(m)) && Process(m).0.req == Entry(m).req
            else Process(m).0 == Entry(m)
    decreases Measure(m, true)
  {
    hide Take;
    var t := Take(m, true);
    if m.req.state.ContentState? || t.Stop? {
    } else {
      ProcessFromEntry(t.m);
    }
  }

  lemma OnLineAppend(n: Machine, line: string, more: string)
    requires n.Valid() && n.Receive(more).Valid() && !n.req.state.ContentState?
    ensures var t, t' := OnLine(n, line), OnLine(n.Receive(more), line);
            t' == if t.Go? then Go(t.m.Receive(more), true) else Stop(t.m.Receive(more), t.outcome)
  {
    hide RequestLine, HeaderField, WithField;
  }

  lemma ReceiveValid(m: Machine, more: string)
    requires m.Valid()
    ensures m.Receive(more).Valid() && m.Receive(more).Pending() == m.Pending() + more
  {
  }

  lemma TakeLineAppend(m: Machine, more: string)
    requires m.Valid() && !m.req.state.ContentState? && Status(m.Pending()) == LINE_OK
    ensures m.Receive(more).Valid()
    ensures Take(m.Receive(more), true) == OnLine(m.NextLine().Receive(more), m.Line())
  {
    hide OnLine, Cut, PlainLength, Status;
    ReceiveValid(m, more);
    ScanAppend(m.Pending(), more);
    var w := m.Receive(more);
    assert w.ScanEnd() == m.ScanEnd();
    assert w.input[w.start..w.ScanEnd()] == m.input[m.start..m.ScanEnd()];
  }

  lemma ScanResumed(m: Machine, more: string)
    requires m.Valid()
    ensures var n := m.(checked := m.ScanEnd());
            && n.Valid() && n.Receive(more).Valid()
            && Status(n.Receive(more).Pending()) == Status(m.Receive(more).Pending())
            && n.Receive(more).ScanEnd() == m.Receive(more).ScanEnd()
  {
    hide PlainLength, Status;
    var n := m.(checked := m.ScanEnd());
    ReceiveValid(m, more);
    ReceiveValid(n, more);
    var w, k := m.Pending() + more, PlainLength(m.Pending());
    ScanFrom(w, k);
    assert n.Receive(more).Pending() == w[k..];
  }

  /** Waiting for more bytes and resuming the scan where it stopped loses nothing. */
  lemma TakeResumed(m: Machine, more: string)
    requires m.Valid() && !m.req.state.ContentState?
    ensures var n := m.(checked := m.ScanEnd());
            n.Valid() && n.Receive(more).Valid() && Take(m.Receive(more), true) == Take(n.Receive(more), true)
  {
    hide OnLine, Cut, PlainLength, Status;
    ScanResumed(m, more);
  }

  lemma TakeAppend(m: Machine, more: string)
    requires m.Valid() && !m.req.state.ContentState?
    ensures m.Receive(more).Valid()
    ensures var t, t' := Take(m, true), Take(m.Receive(more), true);
            && t.m.Receive(more).Valid()
            && t' == if t.Go? then Go(t.m.Receive(more), true)
                     else if t.outcome.NoRequest? then Take(t.m.Receive(more), true)
                     else Stop(t.m.Receive(more), t.outcome)
  {
    hide OnLine, Cut, PlainLength, Status;
    ReceiveValid(m, more);
    if Status(m.Pending()) == LINE_OK {
      TakeLineAppend(m, more);
      ReceiveValid(m.NextLine(), more);
      OnLineAppend(m.NextLine(), m.Line(), more);
      ReceiveValid(OnLine(m.NextLine(), m.Line()).m, more);
    } else {
      TakeResumed(m, more);
    }
  }

  /** Bytes that arrive later do not change what the parser makes of the lines before the body:
      stopping for them and resuming is the same as having had them from the start. */
  lemma {:induction false} ProcessAppend(m: Machine, more: string)
    requires m.Valid() && !m.req.state.ContentState?
    ensures m.Receive(more).Valid()
    ensures var (n, o) := Process(m);
            var whole := Process(m.Receive(more));
            if n.req.state.ContentState? then whole.0.req.state.ContentState?
            else if o.NoRequest? then n.Receive(more).Valid() && whole == Process(n.Receive(more))
            else whole == (n.Receive(more), o)
    decreases Measure(m, true)
  {
    hide Take;
    TakeAppend(m, more);
    var t := Take(m, true);
    if t.Stop? || t.m.req.state.ContentState? {
    } else {
      ProcessAppend(t.m, more);
    }
  }

  /** The place before the body does not depend on how the bytes arrive. */
  lemma {:induction false} EntryAppend(m: Machine, more: string)
    requires m.Valid() && !m.req.state.ContentState?
    ensures m.Receive(more).Valid()
    ensures var e, e' := Entry(m), Entry(m.Receive(more));
            if e.req.state.ContentState? || !Process(m).1.NoRequest? then e' == e.Receive(more)
            else e.Receive(more).Valid() && e' == Entry(e.Receive(more))
    decreases Measure(m, true)
  {
    hide Take;
    TakeAppend(m, more);
    var t := Take(m, true);
    if t.Stop? {
    } else if t.m.req.state.ContentState? {
      ReceiveValid(t.m, more);
    } else {
      EntryAppend(t.m, more);
    }
  }

  function Concat(chunks: seq<string>): string {
    if chunks == [] then "" else chunks[0] + Concat(chunks[1..])
  }

  /** The parser fed one read at a time, until it has an answer. */
  function Feed(m: Machine, chunks: seq<string>): (r: (Machine, Outcome))
    requires m.Valid()
    decreases |chunks|
  {
    if chunks == [] then (m, NoRequest)
    else
      var (n, o) := Process(m.Receive(chunks[0]));
      if o.NoRequest? then Feed(n, chunks[1..]) else (n, o)
  }

  /** A call that ends without an answer stops where the scan cannot go on. */
  lemma {:induction false} Waiting(m: Machine, lineOk: bool)
    requires m.Valid() && Loop(m, lineOk).1.NoRequest?
    ensures var p := Loop(m, lineOk).0.Pending(); Status(p) != LINE_OK && PlainLength(p) == 0
    decreases Measure(m, lineOk)
  {
    hide OnLine, PlainLength, Status;
    var t := Take(m, lineOk);
    if t.Go? {
      Waiting(t.m, t.lineOk);
    } else if Status(m.Pending()) != LINE_OK {
      ScanFrom(m.Pending(), PlainLength(m.Pending()));
      assert t.m.Pending() == m.Pending()[PlainLength(m.Pending())..];
    }
  }

  /** Calling `process_read` again without new input changes nothing before the body. */
  lemma ProcessTwice(m: Machine)
    requires m.Valid()
    ensures var (n, o) := Process(m); o.NoRequest? && !n.req.state.ContentState? ==> Process(n) == (n, o)
  {
    hide Loop;
    var (n, o) := Process(m);
    if o.NoRequest? && !n.req.state.ContentState? {
      Waiting(m, true);
      WaitingTurn(n);
      assert n.(checked := n.ScanEnd()) == n;
    }
  }

  lemma WaitingTurn(m: Machine)
    requires m.Valid() && !m.req.state.ContentState? && Status(m.Pending()) != LINE_OK
    ensures Process(m) == (m.(checked := m.ScanEnd()), NoRequest)
  {
    hide OnLine, PlainLength, Status;
  }

  lemma EntryWaits(m: Machine)
    requires m.Valid() && !m.req.state.ContentState? && Status(m.Pending()) != LINE_OK
    ensures Entry(m) == m.(checked := m.ScanEnd())
  {
    hide OnLine, PlainLength, Status;
  }

  lemma {:induction false} FeedIsProcess(m: Machine, chunks: seq<string>)
    requires m.Valid() && Process(m) == (m, NoRequest)
    requires !Process(m.Receive(Concat(chunks))).0.req.state.ContentState?
    ensures var (n, o) := Feed(m, chunks);
            var whole := Process(m.Receive(Concat(chunks)));
            o == whole.1 && n.req == whole.0.req && n.start == whole.0.start && n.checked == whole.0.checked
    decreases |chunks|
  {
    hide Loop;
    if chunks == [] {
      assert m.input + "" == m.input;
    } else {
      var first, rest := chunks[0], Concat(chunks[1..]);
      var m1 := m.Receive(first);
      assert m1.Receive(rest) == m.Receive(Concat(chunks)) by {
        assert (m.input + first) + rest == m.input + (first + rest);
      }
      ProcessAppend(m1, rest);
      var (n, o) := Process(m1);
      if o.NoRequest? {
        ProcessTwice(m1);
        FeedIsProcess(n, chunks[1..]);
      }
    }
  }

  /** Chunk independence: however the bytes are cut into reads, when the whole input does not reach
      a body, the first answer and every recorded field are those of one call on the whole input. */
  lemma ChunkIndependence(chunks: seq<string>)
    requires !Process(Initial(Concat(chunks))).0.req.state.ContentState?
    ensures Feed(Initial(""), chunks).1 == Process(Initial(Concat(chunks))).1
    ensures Feed(Initial(""), chunks).0.req == Process(Initial(Concat(chunks))).0.req
  {
    hide Loop, Feed, Concat;
    var whole := Concat(chunks);
    assert "" + whole == whole;
    WaitingTurn(Initial(""));
    FeedIsProcess(Initial(""), chunks);
  }

  // ----- The parser in terms of whole lines -----

  function Lines(raw: seq<string>): (ls: seq<string>)
    ensures |ls| == |raw| && forall i :: 0 <= i < |ls| ==> ls[i] == Cut(raw[i])
  {
    seq(|raw|, i requires 0 <= i < |raw| => Cut(raw[i]))
  }

  /** The position of the first empty line, |ls| when there is none. */
  function FirstEmpty(ls: seq<string>): (k: nat)
    ensures k <= |ls| && forall i :: 0 <= i < k ==> ls[i] != ""
    ensures k < |ls| ==> ls[k] == ""
  {
    if ls == [] || ls[0] == "" then 0 else 1 + FirstEmpty(ls[1..])
  }

  /** The meaning of an input: cut it at CRLF, read the first line, collect the header lines up to
      the empty one, and compare what follows with the announced length. */
  ghost function Interpret(input: string): (Request, Outcome) {
    var raw := Split(input).0;
    var ls := Lines(raw);
    if ls == [] then (INITIAL, NoRequest)
    else
      var first := RequestLine(ls[0]);
      if first.BadLine? then (INITIAL, Malformed)
      else
        var k := FirstEmpty(ls[1..]);
        var hs := ls[1..k + 1];
        var q := Request(HeaderState, first.verb, Some(first.url), Some(first.version),
                         LastHost(hs, None), LastLength(hs, 0), KeepsAlive(hs));
        if k + 1 == |ls| then (q, NoRequest)
        else if !ExpectsBody(q) then (q, Respond(first.url))
        else (q.(state := ContentState),
              if |input| - |Unlines(raw[..k + 2])| >= q.contentLength then Respond(first.url) else NoRequest)
  }

  /** Where the body begins: behind the first empty header line. */
  function BodyStartOf(input: string): nat {
    var raw := Split(input).0;
    var k := if raw == [] then 0 else FirstEmpty(Lines(raw)[1..]);
    |Unlines(if k + 2 <= |raw| then raw[..k + 2] else raw)|
  }

  /** A machine that stands at a line start. */
  ghost predicate AtLineStart(m: Machine) { m.Valid() && m.start == m.checked }

  lemma LineAtStart(m: Machine)
    requires AtLineStart(m) && Status(m.Pending()) == LINE_OK
    ensures var k := PlainLength(m.Pending());
            && m.Line() == Cut(m.Pending()[..k])
            && AtLineStart(m.NextLine())
            && m.NextLine().Pending() == m.Pending()[k + 2..]
            && Split(m.Pending()).0 == [m.Pending()[..k]] + Split(m.NextLine().Pending()).0
  {
    hide Cut, PlainLength, Status;
    var k := PlainLength(m.Pending());
    assert m.input[m.start..m.ScanEnd()] == m.Pending()[..k];
    assert m.NextLine().Pending() == m.Pending()[k + 2..];
  }

  lemma UnlinesFirst(l: string, ls: seq<string>, k: nat)
    requires k <= |ls|
    ensures |Unlines(([l] + ls)[..k + 1])| == |l| + 2 + |Unlines(ls[..k])|
  {
    assert ([l] + ls)[..k + 1] == [l] + ls[..k];
    assert ([l] + ls[..k])[1..] == ls[..k];
  }

  lemma FirstEmptyCons(l: string, ls: seq<string>)
    ensures FirstEmpty([l] + ls) == if l == "" then 0 else 1 + FirstEmpty(ls)
  {
    assert ([l] + ls)[1..] == ls;
  }

  lemma LinesCons(l: string, raw: seq<string>)
    ensures Lines([l] + raw) == [Cut(l)] + Lines(raw)
  {
  }

  lemma WithHeadersCons(q: Request, l: string, ls: seq<string>, k: nat)
    requires k <= |ls|
    ensures WithHeaders(q, ([l] + ls)[..k + 1]) == WithHeaders(WithField(q, HeaderField(l)), ls[..k])
  {
    assert ([l] + ls)[..k + 1] == [l] + ls[..k];
    assert ([l] + ls[..k])[1..] == ls[..k];
  }

  /** One header line. */
  lemma HeaderTurn(m: Machine)
    requires AtLineStart(m) && m.req.state.HeaderState? && Status(m.Pending()) == LINE_OK
    ensures m.NextLine().Valid()
    ensures var n := m.NextLine();
            if m.Line() != "" then
              var next := n.(req := WithField(m.req, HeaderField(m.Line())));
              Process(m) == Process(next) && Entry(m) == Entry(next)
            else Process(m) == AfterHeaders(n) && Entry(m) == BeforeBody(n)
  {
    hide Cut, PlainLength, Status, WithField, HeaderField, Loop, Entry, Take, OnLine, ExpectsBody, Split;
    LineAtStart(m);
    LoopTurn(m, true);
    EntryTurn(m);
    OnHeaderLine(m.NextLine(), m.Line());
  }

  lemma OnHeaderLine(n: Machine, line: string)
    requires n.Valid() && n.req.state.HeaderState?
    ensures OnLine(n, line) ==
            if line != "" then Go(n.(req := WithField(n.req, HeaderField(line))), true)
            else if ExpectsBody(n.req) then Go(BeforeBody(n), true)
            else Stop(n, Respond(n.req.url.value))
  {
    hide WithField;
  }

  /** One turn on the way to the body. */
  lemma EntryTurn(m: Machine)
    requires m.Valid() && !m.req.state.ContentState? && Status(m.Pending()) == LINE_OK
    ensures m.NextLine().Valid() && m.NextLine().checked <= Entry(m).checked
    ensures var t := OnLine(m.NextLine(), m.Line()); Entry(m) == if t.Go? then Entry(t.m) else t.m
  {
    hide Cut, PlainLength, Status, OnLine;
  }

  /** Where the empty line leads. */
  function BeforeBody(n: Machine): Machine {
    if ExpectsBody(n.req) then n.(req := n.req.(state := ContentState)) else n
  }

  /** What happens at the empty line. */
  function AfterHeaders(n: Machine): (Machine, Outcome)
    requires n.Valid() && n.req.state.HeaderState?
  {
    if ExpectsBody(n.req) then Process(BeforeBody(n)) else (n, Respond(n.req.url.value))
  }

  /** The machine behind the first i lines of what is pending. */
  function Behind(m: Machine, i: nat, q: Request): Machine
    requires m.checked <= |m.input| && i <= |Split(m.Pending()).0|
  {
    var at := m.checked + |Unlines(Split(m.Pending()).0[..i])|;
    Machine(q, m.input, at, at)
  }

  lemma BehindNext(m: Machine, i: nat, q: Request)
    requires AtLineStart(m) && Status(m.Pending()) == LINE_OK
    requires AtLineStart(m.NextLine()) && i <= |Split(m.NextLine().Pending()).0|
    ensures i < |Split(m.Pending()).0|
    ensures Behind(m, i + 1, q) == Behind(m.NextLine(), i, q)
  {
    hide Cut, PlainLength, Status, Split;
    LineAtStart(m);
    UnlinesFirst(m.Pending()[..PlainLength(m.Pending())], Split(m.NextLine().Pending()).0, i);
  }

  /** A scan from n completes line i of the split of what m has pending, or completes none behind the last. */
  ghost predicate Delivers(m: Machine, i: nat, n: Machine)
    requires m.checked <= |m.input| && i <= |Split(m.Pending()).0| && AtLineStart(n)
  {
    if i < |Split(m.Pending()).0| then
      && Status(n.Pending()) == LINE_OK
      && n.input[n.start..n.ScanEnd()] == Split(m.Pending()).0[i]
      && n.NextLine() == Behind(m, i + 1, m.req)
    else Status(n.Pending()) != LINE_OK
  }

  lemma FirstDelivered(m: Machine)
    requires AtLineStart(m)
    ensures Behind(m, 0, m.req) == m && Delivers(m, 0, m)
  {
    hide Cut, PlainLength, Status;
    assert Split(m.Pending()).0[..0] == [] && Unlines([]) == "";
    if Status(m.Pending()) == LINE_OK {
      LineAtStart(m);
      BehindNext(m, 0, m.req);
      var n := m.NextLine();
      assert Split(n.Pending()).0[..0] == [];
      assert m.input[m.start..m.ScanEnd()] == m.Pending()[..PlainLength(m.Pending())];
    }
  }

  /** Framing: scanning line after line delivers the lines of the split, in order and whole, each time from
      behind the bytes of the lines before it; after the last one no further line is complete. */
  lemma {:induction false} LinesDelivered(m: Machine, i: nat)
    requires AtLineStart(m) && i <= |Split(m.Pending()).0|
    ensures AtLineStart(Behind(m, i, m.req)) && Delivers(m, i, Behind(m, i, m.req))
    decreases i
  {
    hide Cut, PlainLength, Status, Split, Behind, Unlines;
    if i == 0 {
      FirstDelivered(m);
    } else {
      SomeLine(m);
      LineAtStart(m);
      BehindNext(m, i - 1, m.req);
      LinesDelivered(m.NextLine(), i - 1);
      if i < |Split(m.Pending()).0| {
        BehindNext(m, i, m.req);
      }
    }
  }

  lemma SomeLine(m: Machine)
    requires m.checked <= |m.input| && Split(m.Pending()).0 != []
    ensures Status(m.Pending()) == LINE_OK
  {
  }

  /** The lines ahead of a machine, as the parser will see them. */
  function Ahead(m: Machine): (ls: seq<string>)
    requires m.checked <= |m.input|
    ensures |ls| == |Split(m.Pending()).0|
  {
    Lines(Split(m.Pending()).0)
  }

  lemma AheadNext(m: Machine)
    requires AtLineStart(m) && Status(m.Pending()) == LINE_OK
    ensures AtLineStart(m.NextLine()) && Ahead(m) == [m.Line()] + Ahead(m.NextLine())
  {
    hide Cut, PlainLength, Status, Split;
    LineAtStart(m);
    LinesCons(m.Pending()[..PlainLength(m.Pending())], Split(m.NextLine().Pending()).0);
  }

  lemma AheadSame(n: Machine, m: Machine)
    requires m.checked == n.checked <= |m.input| && m.input == n.input
    ensures Ahead(n) == Ahead(m)
  {
  }

  lemma NoneAhead(m: Machine)
    requires m.checked <= |m.input| && Status(m.Pending()) != LINE_OK
    ensures Ahead(m) == []
  {
  }

  /** The header phase: the fields are folded up to the first empty line. */
  ghost predicate HeadersFolded(m: Machine)
    requires AtLineStart(m) && m.req.state.HeaderState?
  {
    var k := FirstEmpty(Ahead(m));
    var q := WithHeaders(m.req, Ahead(m)[..k]);
    if k == |Ahead(m)| then Process(m).0.req == Entry(m).req == q && Process(m).1 == NoRequest
    else
      && Behind(m, k + 1, q).Valid()
      && Process(m) == AfterHeaders(Behind(m, k + 1, q)) && Entry(m) == BeforeBody(Behind(m, k + 1, q))
  }

  lemma FoldedAtEnd(m: Machine)
    requires AtLineStart(m) && m.req.state.HeaderState? && Status(m.Pending()) != LINE_OK
    ensures HeadersFolded(m)
  {
    hide Cut, PlainLength, Status, Split, Loop, Entry, Ahead;
    WaitingTurn(m);
    EntryWaits(m);
    NoneAhead(m);
  }

  lemma FoldedAtEmptyLine(m: Machine)
    requires AtLineStart(m) && m.req.state.HeaderState? && Status(m.Pending()) == LINE_OK && m.Line() == ""
    ensures HeadersFolded(m)
  {
    hide Cut, PlainLength, Status, Split, HeaderField, Loop, Entry, Ahead, AfterHeaders, BeforeBody;
    HeaderTurn(m);
    AheadNext(m);
    BehindNext(m, 0, m.req);
    assert Ahead(m)[..0] == [];
  }

  lemma FoldedAtField(m: Machine)
    requires AtLineStart(m) && m.req.state.HeaderState? && Status(m.Pending()) == LINE_OK && m.Line() != ""
    ensures var n := m.NextLine().(req := WithField(m.req, HeaderField(m.Line())));
            && AtLineStart(n) && n.req.state.HeaderState?
            && (HeadersFolded(n) ==> HeadersFolded(m))
  {
    hide Cut, PlainLength, Status, Split, HeaderField, Loop, Entry, Ahead, AfterHeaders, BeforeBody, FirstEmpty, WithHeaders;
    HeaderTurn(m);
    AheadNext(m);
    var n := m.NextLine().(req := WithField(m.req, HeaderField(m.Line())));
    AheadSame(n, m.NextLine());
    FirstEmptyCons(m.Line(), Ahead(n));
    var k := FirstEmpty(Ahead(n));
    WithHeadersCons(m.req, m.Line(), Ahead(n), k);
    if k < |Ahead(n)| {
      BehindNext(m, k + 1, WithHeaders(n.req, Ahead(n)[..k]));
    }
  }

  lemma {:induction false} HeaderRun(m: Machine)
    requires AtLineStart(m) && m.req.state.HeaderState?
    ensures HeadersFolded(m)
    decreases |m.input| - m.checked
  {
    hide Cut, PlainLength, Status, HeaderField, HeadersFolded;
    if Status(m.Pending()) != LINE_OK {
      FoldedAtEnd(m);
    } else if m.Line() == "" {
      FoldedAtEmptyLine(m);
    } else {
      FoldedAtField(m);
      HeaderRun(m.NextLine().(req := WithField(m.req, HeaderField(m.Line()))));
    }
  }

  /** The body, from a position on, is all there, or the 32-bit sum of the completion test overflows at the
      end of one of its lines. */
  predicate Complete(length: CInt, input: string, at: nat)
    requires at <= |input|
  {
    |input| >= length + at || length + at + |Unlines(Split(input[at..]).0)| > INT_MAX
  }

  /** The announced body is not there yet. */
  ghost predicate AwaitsBody(m: Machine) {
    && m.Valid() && m.req.state.ContentState? && |m.input| <= INT_MAX
    && |m.input| < m.req.contentLength + m.checked <= INT_MAX
  }

  lemma BodyScanTurn(m: Machine, lineOk: bool)
    requires AwaitsBody(m)
    ensures Take(m, lineOk) ==
            if lineOk then Go(m.(start := m.checked), false)
            else if Status(m.Pending()) != LINE_OK then Stop(m.(checked := m.ScanEnd()), NoRequest)
            else if m.req.contentLength + m.NextLine().checked <= INT_MAX then Go(m.NextLine(), false)
            else Stop(m.NextLine(), Respond(m.req.url.value))
  {
    hide PlainLength, Status, RequestLine, HeaderField, WithField, Cut;
  }

  /** While the announced body is not there, its bytes are scanned for lines. There is no answer, unless the
      sum of the completion test overflows behind the last of these lines. */
  lemma {:induction false} BodyIncomplete(m: Machine, lineOk: bool)
    requires AwaitsBody(m)
    ensures var (n, o) := Loop(m, lineOk);
            if m.req.contentLength + m.checked + |Unlines(Split(m.Pending()).0)| > INT_MAX then
              o == Respond(m.req.url.value)
            else o == NoRequest && n.checked == m.checked + Consumed(m.Pending())
    decreases Measure(m, lineOk)
  {
    hide PlainLength, Status, Take, Unlines, Split;
    BodyScanTurn(m, lineOk);
    var t := Take(m, lineOk);
    if lineOk {
      assert t.m.Pending() == m.Pending();
      BodyIncomplete(t.m, t.lineOk);
    } else if Status(m.Pending()) != LINE_OK {
      NoLineAhead(m.Pending());
    } else {
      LineConsumed(m.Pending());
      assert m.NextLine().Pending() == m.Pending()[PlainLength(m.Pending()) + 2..];
      if t.Go? {
        BodyIncomplete(t.m, t.lineOk);
      }
    }
  }

  /** How many bytes of an incomplete body the scan for lines passes over. */
  function Consumed(body: string): (n: nat)
    ensures n <= |body|
  {
    UnlinesOfSplit(body);
    |Unlines(Split(body).0)| + PlainLength(Split(body).1)
  }

  lemma LineConsumed(body: string)
    requires Status(body) == LINE_OK
    ensures var rest := body[PlainLength(body) + 2..];
            && Consumed(body) == PlainLength(body) + 2 + Consumed(rest)
            && |Unlines(Split(body).0)| == PlainLength(body) + 2 + |Unlines(Split(rest).0)|
  {
    hide PlainLength, Status;
    var l, ls := body[..PlainLength(body)], Split(body[PlainLength(body) + 2..]).0;
    UnlinesFirst(l, ls, |ls|);
    assert ([l] + ls)[..|ls| + 1] == [l] + ls;
    assert ls[..|ls|] == ls;
  }

  lemma NoLineAhead(body: string)
    requires Status(body) != LINE_OK
    ensures Consumed(body) == PlainLength(body) && |Unlines(Split(body).0)| == 0
  {
  }

  /** A call in the body: it answers if and only if the body is complete, counted from where the scan
      stands; otherwise the scan passes over what it can. */
  lemma BodyCall(m: Machine)
    requires m.Valid() && m.req.state.ContentState? && |m.input| <= INT_MAX
    ensures var (n, o) := Process(m);
            if Complete(m.req.contentLength, m.input, m.checked) then o == Respond(m.req.url.value)
            else o == NoRequest && n.checked == m.checked + Consumed(m.Pending())
  {
    hide PlainLength, Status, Consumed, OnLine, Unlines, Split;
    if AwaitsBody(m) {
      BodyIncomplete(m, true);
    } else {
      FirstTest(m);
    }
  }

  lemma FirstTest(m: Machine)
    requires m.Valid() && m.req.state.ContentState? && |m.input| <= INT_MAX && !AwaitsBody(m)
    ensures Process(m).1 == Respond(m.req.url.value)
  {
    hide PlainLength, Status;
  }

  /** The request line. */
  lemma FirstTurn(m: Machine)
    requires AtLineStart(m) && m.req.state.RequestLineState? && Status(m.Pending()) == LINE_OK
    ensures m.NextLine().Valid()
    ensures var r, n := RequestLine(m.Line()), m.NextLine();
            if r.BadLine? then Process(m) == (n, Malformed) && Entry(m) == n
            else
              var next := n.(req := WithRequestLine(m.req, r));
              Process(m) == Process(next) && Entry(m) == Entry(next)
  {
    hide Cut, PlainLength, Status, RequestLine;
    LineAtStart(m);
  }

  /** The body is there, or the answer has to wait. */
  lemma BodyTurn(n: Machine)
    requires AtLineStart(n) && n.req.state.HeaderState? && (ExpectsBody(n.req) ==> |n.input| <= INT_MAX)
    ensures AfterHeaders(n).0.req == BeforeBody(n).req
    ensures AfterHeaders(n).1 ==
            if ExpectsBody(n.req) && !Complete(n.req.contentLength, n.input, n.checked) then NoRequest
            else Respond(n.req.url.value)
    ensures !ExpectsBody(n.req) ==> AfterHeaders(n).0 == n
    ensures AfterHeaders(n).1.NoRequest? ==> AfterHeaders(n).0.checked == n.checked + Consumed(n.Pending())
  {
    hide PlainLength, Status, OnLine, Consumed, Complete;
    if ExpectsBody(n.req) {
      assert BeforeBody(n).Pending() == n.Pending();
      BodyCall(BeforeBody(n));
    }
  }

  /** The input announces a body that is not all there, and the sum of the completion test overflows behind
      the last line in what is there of it. */
  ghost predicate Overflows(input: string) {
    && Interpret(input).0.state.ContentState? && Interpret(input).1.NoRequest?
    && BodyStartOf(input) <= |input|
    && Interpret(input).0.contentLength + BodyStartOf(input) + |Unlines(Split(input[BodyStartOf(input)..]).0)| > INT_MAX
  }

  /** The in-place, resumable parser computes the meaning of the input: always the fields, and the outcome
      exactly unless the 32-bit sum of the completion test overflows, when an incomplete body is answered.
      An answered request ends where its lines end; a body starts there. With a body, the input has to fit
      the index, an `int`. */
  lemma ProcessIsInterpret(input: string)
    requires Interpret(input).0.state.ContentState? ==> |input| <= INT_MAX
    ensures var ((n, o), (q, meant)) := (Process(Initial(input)), Interpret(input));
            && n.req == q
            && (if Overflows(input) then o == Respond(q.url.value) && o != meant else o == meant)
            && (q.state.ContentState? || o.Respond? ==> BodyStartOf(input) <= |input|)
            && (q.state.ContentState? && o.NoRequest? ==>
                  n.checked == BodyStartOf(input) + Consumed(input[BodyStartOf(input)..]))
            && (!q.state.ContentState? && o.Respond? ==> n.start == n.checked == BodyStartOf(input))
    ensures var e := Entry(Initial(input));
            if Interpret(input).0.state.ContentState? then
              e == Machine(Interpret(input).0, input, BodyStartOf(input), BodyStartOf(input))
            else !e.req.state.ContentState?
  {
    hide Cut, PlainLength, Status, Split, RequestLine, Loop, Entry, Ahead, AfterHeaders, FirstEmpty, Unlines, WithHeaders,
         LastLength, LastHost, KeepsAlive, Behind, Consumed, BodyStartOf;
    var m := Initial(input);
    assert m.Pending() == input;
    InterpretByLines(input);
    if Status(input) == LINE_OK {
      FirstTurn(m);
      AheadNext(m);
      var first := RequestLine(m.Line());
      if first.GoodLine? {
        var n := m.NextLine().(req := WithRequestLine(INITIAL, first));
        assert Ahead(n) == Ahead(m)[1..] by { AheadSame(n, m.NextLine()); }
        var k := FirstEmpty(Ahead(n));
        HeaderRun(n);
        HeadersSummary(n.req, Ahead(n)[..k]);
        if k < |Ahead(n)| {
          var q := WithHeaders(n.req, Ahead(n)[..k]);
          BehindSize(m, k, q, n);
          BodyStartByLines(input, k);
          BodyTurn(Behind(n, k + 1, q));
        }
      }
    } else {
      WaitingTurn(m);
      EntryWaits(m);
    }
  }

  lemma BehindSize(m: Machine, k: nat, q: Request, n: Machine)
    requires m == Initial(m.input) && Status(m.Pending()) == LINE_OK && m.NextLine().Valid()
    requires n == m.NextLine().(req := n.req) && k < |Split(n.Pending()).0|
    ensures k + 1 < |Split(m.input).0|
    ensures Behind(n, k + 1, q) == Machine(q, m.input, |Unlines(Split(m.input).0[..k + 2])|, |Unlines(Split(m.input).0[..k + 2])|)
  {
    hide Cut, PlainLength, Status, Split, Unlines;
    assert m.Pending() == m.input;
    BehindNext(m, k + 1, q);
  }

  lemma BodyStartByLines(input: string, k: nat)
    requires var ls := Ahead(Initial(input)); ls != [] && k == FirstEmpty(ls[1..]) && k + 2 <= |ls|
    ensures k + 2 <= |Split(input).0| && BodyStartOf(input) == |Unlines(Split(input).0[..k + 2])|
  {
    hide Split, Unlines, FirstEmpty;
    assert Initial(input).Pending() == input;
  }

  lemma InterpretByLines(input: string)
    ensures var ls := Ahead(Initial(input));
            Status(input) != LINE_OK <==> ls == []
    ensures var ls := Ahead(Initial(input));
            Interpret(input) ==
            if ls == [] then (INITIAL, NoRequest)
            else if RequestLine(ls[0]).BadLine? then (INITIAL, Malformed)
            else
              var first := RequestLine(ls[0]);
              var k := FirstEmpty(ls[1..]);
              var hs := ls[1..][..k];
              var q := Request(HeaderState, first.verb, Some(first.url), Some(first.version),
                               LastHost(hs, None), LastLength(hs, 0), KeepsAlive(hs));
              if k + 1 == |ls| then (q, NoRequest)
              else if !ExpectsBody(q) then (q, Respond(first.url))
              else (q.(state := ContentState),
                    if |input| - |Unlines(Split(input).0[..k + 2])| >= q.contentLength then Respond(first.url) else NoRequest)
  {
    hide Cut, PlainLength, Status, RequestLine, FirstEmpty, Unlines, LastLength, LastHost, KeepsAlive;
    assert Initial(input).Pending() == input;
    var ls := Ahead(Initial(input));
    if ls != [] {
      var k := FirstEmpty(ls[1..]);
      assert ls[1..][..k] == ls[1..k + 1];
    }
  }

  // ----- A connection that is not reset -----

  /** Past the request line, the loop keeps the URL and never goes back. */
  lemma {:induction false} UrlStays(m: Machine, lineOk: bool)
    requires m.Valid() && !m.req.state.RequestLineState?
    ensures var (n, o) := Loop(m, lineOk);
            && !n.req.state.RequestLineState? && n.req.url == m.req.url
            && (o.NoRequest? || o == Respond(m.req.url.value))
    decreases Measure(m, lineOk)
  {
    hide Take, Status, PlainLength;
    TurnKeepsUrl(m, lineOk);
    var t := Take(m, lineOk);
    if t.Stop? {
    } else {
      UrlStays(t.m, t.lineOk);
    }
  }

  lemma TurnKeepsUrl(m: Machine, lineOk: bool)
    requires m.Valid() && !m.req.state.RequestLineState?
    ensures var t := Take(m, lineOk);
            && !t.m.req.state.RequestLineState? && t.m.req.url == m.req.url
            && (t.Stop? ==> t.outcome.NoRequest? || t.outcome == Respond(m.req.url.value))
  {
    hide Cut, PlainLength, Status, RequestLine, HeaderField;
  }

  /** As long as reads append: whatever arrives after a request line was accepted, before or after the answer
      to it, is answered with the URL of that line or not at all, until `init`. */
  lemma {:induction false} NextRequestGetsOldUrl(m: Machine, chunks: seq<string>)
    requires m.Valid() && !m.req.state.RequestLineState?
    ensures var (n, o) := Feed(m, chunks);
            && !n.req.state.RequestLineState? && n.req.url == m.req.url
            && (o.NoRequest? || o == Respond(m.req.url.value))
    decreases |chunks|
  {
    hide Loop;
    if chunks == [] {
    } else {
      ReceiveValid(m, chunks[0]);
      UrlStays(m.Receive(chunks[0]), true);
      var (n, o) := Process(m.Receive(chunks[0]));
      if o.NoRequest? {
        NextRequestGetsOldUrl(n, chunks[1..]);
      }
    }
  }

  /** Every answer comes from past the request line. */
  lemma {:induction false} AnswerIsPastRequestLine(m: Machine, lineOk: bool)
    requires m.Valid()
    ensures Loop(m, lineOk).1.Respond? ==> !Loop(m, lineOk).0.req.state.RequestLineState?
    decreases Measure(m, lineOk)
  {
    hide Cut, PlainLength, Status, RequestLine, HeaderField;
    var t := Take(m, lineOk);
    if t.Stop? {
    } else {
      AnswerIsPastRequestLine(t.m, t.lineOk);
    }
  }

  lemma {:induction false} FeedAnswers(m: Machine, chunks: seq<string>)
    requires m.Valid()
    ensures var (n, o) := Feed(m, chunks);
            o.Respond? ==> n.Valid() && !n.req.state.RequestLineState? && n.req.url == Some(o.url)
    decreases |chunks|
  {
    hide Loop;
    if chunks == [] {
    } else {
      ReceiveValid(m, chunks[0]);
      AnswerIsPastRequestLine(m.Receive(chunks[0]), true);
      var (n, o) := Process(m.Receive(chunks[0]));
      if o.NoRequest? {
        FeedAnswers(n, chunks[1..]);
      }
    }
  }

  /** Two requests on a connection that is not reset between them, in reads that append: whatever the second
      asks for, it is answered as the first was, or not at all. */
  lemma SecondRequestGetsFirstAnswer(first: seq<string>, second: seq<string>)
    ensures var (n, o) := Feed(Initial(""), first);
            o.Respond? ==> n.Valid() && (Feed(n, second).1.NoRequest? || Feed(n, second).1 == o)
  {
    hide Feed, Loop;
    FeedAnswers(Initial(""), first);
    var (n, o) := Feed(Initial(""), first);
    if o.Respond? {
      NextRequestGetsOldUrl(n, second);
    }
  }

  /** A carriage return or line feed that does not end a line is not reported: the parser waits, and as long
      as reads append no answer is given, whatever arrives. */
  lemma {:induction false} BadLineNeverAnswered(m: Machine, chunks: seq<string>)
    requires m.Valid() && !m.req.state.ContentState? && Status(m.Pending()) == LINE_BAD
    ensures Feed(m, chunks).1 == NoRequest
    decreases |chunks|
  {
    hide Loop, PlainLength, Status;
    if chunks == [] {
    } else {
      var w := m.Receive(chunks[0]);
      ReceiveValid(m, chunks[0]);
      ScanAppend(m.Pending(), chunks[0]);
      WaitingTurn(w);
      var n := w.(checked := w.ScanEnd());
      ScanFrom(w.Pending(), PlainLength(w.Pending()));
      assert n.Pending() == w.Pending()[PlainLength(w.Pending())..];
      BadLineNeverAnswered(n, chunks[1..]);
    }
  }
}
