/** The pool of connection workers as a state machine: `Accept` is the insertion of a connection into the
    queue of an idle worker, `Close` the removal of a connection. */
module ConnPoolSpec {
  import opened CTypes
  import opened Lists
  import opened Pools
  import opened ConnQueue

  /** The load of a worker is its queue of connections, newest first. */
  type Pool<W(==), C> = State<W, seq<C>>

  function Count<W, C>(s: Pool<W, C>, w: W): nat {
    if w in s.load then |s.load[w]| else 0
  }

  /** Whether an insertion into the queue of w leaves a single idle worker with one free place. */
  predicate LastPlace<W, C>(s: Pool<W, C>) {
    |s.idle| == 1 && Count(s, s.idle[0]) == MAX_OPEN_FD - 1
  }

  /** The pool after the connection itself is in the queue, and the worker moved if that filled it. */
  function Inserted<W, C>(s: Pool<W, C>, w: W, c: C): Pool<W, C>
    requires w in s.load
  {
    var t := s.(load := s.load[w := [c] + s.load[w]]);
    if MAX_OPEN_FD < Count(t, w) + 1 then MoveToBusy(t, w) else t
  }

  /** `InsertConn`: refused when the queue is full; otherwise a spare worker is added when none but one
      idle worker is left and it has one free place. */
  function Accept<W, C>(s: Pool<W, C>, w: W, c: C, spare: W): Pool<W, C>
    requires w in s.load
  {
    if Count(s, w) < MAX_OPEN_FD then
      var t := Inserted(s, w, c);
      if LastPlace(t) then
        var u := Create(t, [spare]);
        u.(load := u.load[spare := []])
      else t
    else s
  }

  /** `CheckIfInBusyList`: the worker comes back from the busy list if it is there, and the connection
      leaves its queue. */
  function Close<W, C(==)>(s: Pool<W, C>, w: W, c: C): Pool<W, C>
    requires w in s.load
  {
    var t := if w in s.busy then MoveToIdle(s, w) else s;
    t.(load := t.load[w := Erase(t.load[w], c)])
  }

  /** How many connections the workers of a list hold. */
  ghost function Total<W, C>(s: Pool<W, C>, ws: seq<W>): nat {
    if ws == [] then 0 else Count(s, ws[0]) + Total(s, ws[1..])
  }

  /** The open connections. */
  ghost function Open<W, C>(s: Pool<W, C>): nat { Total(s, s.idle) + Total(s, s.busy) }

  ghost predicate Filled<W, C>(s: Pool<W, C>) {
    && (forall i :: 0 <= i < |s.threads| ==> s.threads[i] in s.load)
    && (forall i :: 0 <= i < |s.idle| ==> Count(s, s.idle[i]) < MAX_OPEN_FD)
    && (forall i :: 0 <= i < |s.busy| ==> Count(s, s.busy[i]) == MAX_OPEN_FD)
  }

  /** There is an idle worker, and a single idle worker has at least two free places. */
  ghost predicate Spare<W, C>(s: Pool<W, C>) {
    s.idle != [] && (|s.idle| == 1 ==> Count(s, s.idle[0]) <= MAX_OPEN_FD - 2)
  }

  ghost predicate Inv<W, C>(s: Pool<W, C>) {
    && Partition(s.threads, s.idle, s.busy)
    && Filled(s) && Spare(s)
    && s.avail == U32(|s.idle|)
  }

  lemma {:induction false} TotalAppend<W, C>(s: Pool<W, C>, a: seq<W>, b: seq<W>)
    ensures Total(s, a + b) == Total(s, a) + Total(s, b)
    decreases |a|
  {
    if a == [] {
      assert a + b == b;
    } else {
      assert (a + b)[1..] == a[1..] + b;
      TotalAppend(s, a[1..], b);
    }
  }

  lemma {:induction false} TotalErase<W, C>(s: Pool<W, C>, ws: seq<W>, w: W)
    requires w in ws
    ensures Total(s, Erase(ws, w)) == Total(s, ws) - Count(s, w)
    decreases |ws|
  {
    if ws[0] == w {
    } else {
      TotalErase(s, ws[1..], w);
    }
  }

  /** Workers whose queues are as they were hold as many connections as they did. */
  lemma {:induction false} TotalFrame<W, C>(s: Pool<W, C>, t: Pool<W, C>, ws: seq<W>)
    requires forall i :: 0 <= i < |ws| ==> Count(s, ws[i]) == Count(t, ws[i])
    ensures Total(s, ws) == Total(t, ws)
    decreases |ws|
  {
    if ws == [] {
    } else {
      TotalFrame(s, t, ws[1..]);
    }
  }

  /** One queue of a list changes its length. */
  lemma {:induction false} TotalChanged<W, C>(s: Pool<W, C>, t: Pool<W, C>, ws: seq<W>, w: W)
    requires Distinct(ws) && w in ws
    requires forall i :: 0 <= i < |ws| && ws[i] != w ==> Count(s, ws[i]) == Count(t, ws[i])
    ensures Total(t, ws) == Total(s, ws) - Count(s, w) + Count(t, w)
    decreases |ws|
  {
    if ws[0] == w {
      assert forall i :: 0 <= i < |ws[1..]| ==> ws[1..][i] == ws[i + 1] != w;
      TotalFrame(s, t, ws[1..]);
    } else {
      TotalChanged(s, t, ws[1..], w);
    }
  }

  lemma {:induction false} TotalFull<W, C>(s: Pool<W, C>, ws: seq<W>)
    requires forall i :: 0 <= i < |ws| ==> Count(s, ws[i]) == MAX_OPEN_FD
    ensures Total(s, ws) == |ws| * MAX_OPEN_FD
    decreases |ws|
  {
    if ws == [] {
    } else {
      TotalFull(s, ws[1..]);
    }
  }

  lemma {:induction false} TotalBound<W, C>(s: Pool<W, C>, ws: seq<W>)
    requires forall i :: 0 <= i < |ws| ==> Count(s, ws[i]) <= MAX_OPEN_FD - 1
    ensures Total(s, ws) <= |ws| * (MAX_OPEN_FD - 1)
    decreases |ws|
  {
    if ws == [] {
    } else {
      TotalBound(s, ws[1..]);
    }
  }

  /** The connections of all listed workers, counted over the list of all workers, are the open ones. */
  lemma {:induction false} TotalOfMultiset<W, C>(s: Pool<W, C>, a: seq<W>, b: seq<W>)
    requires multiset(a) == multiset(b)
    ensures Total(s, a) == Total(s, b)
    decreases |a|
  {
    if a == [] {
      assert |multiset(b)| == 0;
    } else {
      assert a == [a[0]] + a[1..];
      assert a[0] in multiset(a);
      EraseMultiset(b, a[0]);
      TotalOfMultiset(s, a[1..], Erase(b, a[0]));
      TotalErase(s, b, a[0]);
    }
  }

  lemma OpenIsSum<W, C>(s: Pool<W, C>)
    requires Partition(s.threads, s.idle, s.busy)
    ensures Open(s) == Total(s, s.threads)
  {
    assert multiset(s.idle + s.busy) == multiset(s.idle) + multiset(s.busy);
    TotalOfMultiset(s, s.threads, s.idle + s.busy);
    TotalAppend(s, s.idle, s.busy);
  }

  /** The invariant up to the spare worker, which the insertion may use up. */
  ghost predicate Mid<W, C>(s: Pool<W, C>) {
    Partition(s.threads, s.idle, s.busy) && Filled(s) && s.avail == U32(|s.idle|)
  }

  lemma U32Step(n: nat)
    ensures U32(U32(n) + 1) == U32(n + 1)
    ensures n > 0 ==> U32(U32(n) - 1) == U32(n - 1)
  {
  }

  lemma InsertedStays<W, C>(s: Pool<W, C>, w: W, c: C)
    requires Mid(s) && w in s.idle && w in s.load && Count(s, w) + 1 < MAX_OPEN_FD
    ensures var t := Inserted(s, w, c);
            && Mid(t) && t.idle == s.idle && t.threads == s.threads && t.busy == s.busy
            && t.load == s.load[w := [c] + s.load[w]] && Open(t) == Open(s) + 1
  {
    hide Partition;
    PartitionFacts(s.threads, s.idle, s.busy);
    var t := Inserted(s, w, c);
    TotalChanged(s, t, s.idle, w);
    TotalFrame(s, t, s.busy);
  }

  lemma InsertedFills<W, C>(s: Pool<W, C>, w: W, c: C)
    requires Mid(s) && w in s.idle && w in s.load && Count(s, w) + 1 == MAX_OPEN_FD
    ensures var t := Inserted(s, w, c);
            && Mid(t) && t.idle == Erase(s.idle, w) && t.threads == s.threads && t.busy == s.busy + [w]
            && t.load == s.load[w := [c] + s.load[w]] && Open(t) == Open(s) + 1
  {
    hide Partition, Erase, U32;
    PartitionFacts(s.threads, s.idle, s.busy);
    var t := Inserted(s, w, c);
    PartitionMoved(s.threads, s.idle, s.busy, w);
    EraseKeepsDistinct(s.idle, w);
    U32Step(|s.idle|);
    TotalChanged(s, t, s.idle, w);
    TotalErase(t, s.idle, w);
    TotalFrame(s, t, s.busy);
    TotalAppend(t, s.busy, [w]);
    assert Total(t, [w]) == Count(t, w) by { assert [w][1..] == []; }
    FilledFilled(s, t, w);
  }

  lemma FilledFilled<W, C>(s: Pool<W, C>, t: Pool<W, C>, w: W)
    requires Filled(s) && Distinct(s.idle) && w in s.load && w !in s.busy
    requires t.threads == s.threads && t.idle == Erase(s.idle, w) && t.busy == s.busy + [w]
    requires w in t.load && t.load == s.load[w := t.load[w]] && Count(t, w) == MAX_OPEN_FD
    ensures Filled(t)
  {
    EraseKeepsDistinct(s.idle, w);
    forall i | 0 <= i < |t.idle|
      ensures Count(t, t.idle[i]) < MAX_OPEN_FD
    {
      assert t.idle[i] in s.idle;
      var j :| 0 <= j < |s.idle| && s.idle[j] == t.idle[i];
      assert Count(s, s.idle[j]) == Count(t, t.idle[i]);
    }
    forall i | 0 <= i < |t.busy|
      ensures Count(t, t.busy[i]) == MAX_OPEN_FD
    {
      if i < |s.busy| {
        assert Count(s, s.busy[i]) == Count(t, t.busy[i]);
      }
    }
  }

  /** The insertion leaves a last place exactly when that many connections are open. */
  lemma LastPlaceIsCount<W, C>(t: Pool<W, C>)
    requires Mid(t)
    ensures LastPlace(t) <==> Open(t) == |t.threads| * MAX_OPEN_FD - 1
  {
    PartitionFacts(t.threads, t.idle, t.busy);
    TotalFull(t, t.busy);
    TotalBound(t, t.idle);
    if |t.idle| == 1 {
      assert t.idle[1..] == [];
      assert Total(t, t.idle) == Count(t, t.idle[0]);
    }
  }

  lemma SpareAdded<W, C>(t: Pool<W, C>, spare: W)
    requires Mid(t) && LastPlace(t) && spare !in t.threads
    ensures var c := Create(t, [spare]);
            var u := c.(load := c.load[spare := []]);
            && Inv(u) && u.threads == t.threads + [spare] && u.idle == t.idle + [spare] && u.busy == t.busy
            && u.load == t.load[spare := []] && Open(u) == Open(t)
  {
    hide Partition, U32;
    PartitionFacts(t.threads, t.idle, t.busy);
    PartitionGrown(t.threads, t.idle, t.busy, [spare]);
    OneCreated(t, spare);
    U32Step(1);
    var c := Create(t, [spare]);
    var u := c.(load := c.load[spare := []]);
    assert forall i :: 0 <= i < |t.idle| ==> t.idle[i] != spare;
    assert forall i :: 0 <= i < |t.busy| ==> t.busy[i] != spare;
    TotalFrame(t, u, t.idle);
    TotalFrame(t, u, t.busy);
    TotalAppend(u, t.idle, [spare]);
    assert Total(u, [spare]) == 0 by { assert [spare][1..] == []; }
  }

  lemma OneCreated<W, C>(t: Pool<W, C>, spare: W)
    ensures Create(t, [spare]) ==
            t.(threads := t.threads + [spare], idle := t.idle + [spare], avail := U32(t.avail + 1))
  {
    hide U32;
    assert [spare][1..] == [];
  }

  lemma InsertedStep<W, C>(s: Pool<W, C>, w: W, c: C)
    requires Inv(s) && w in s.idle && w in s.load
    ensures var t := Inserted(s, w, c);
            && Mid(t) && t.idle != [] && (LastPlace(t) || Inv(t)) && Count(s, w) < MAX_OPEN_FD
            && t.threads == s.threads && t.load == s.load[w := [c] + s.load[w]] && Open(t) == Open(s) + 1
  {
    hide Partition, Erase, U32, Total;
    PartitionFacts(s.threads, s.idle, s.busy);
    assert Count(s, w) < MAX_OPEN_FD;
    if Count(s, w) + 1 < MAX_OPEN_FD {
      InsertedStays(s, w, c);
    } else {
      InsertedFills(s, w, c);
      TwoIdle(s.idle, w);
    }
  }

  /** Accept keeps the invariant and always takes the connection. It adds a worker exactly when it brings
      the open connections to one less than all the workers together can hold. */
  lemma AcceptStep<W, C>(s: Pool<W, C>, w: W, c: C, spare: W)
    requires Inv(s) && w in s.idle && w in s.load && spare !in s.threads
    ensures var t := Accept(s, w, c, spare);
            && Inv(t) && Count(s, w) < MAX_OPEN_FD
            && w in t.load && t.load[w] == [c] + s.load[w] && Open(t) == Open(s) + 1
            && (forall i :: 0 <= i < |s.threads| && s.threads[i] != w ==>
                              Count(t, s.threads[i]) == Count(s, s.threads[i]))
            && t.threads == (if Open(t) == |s.threads| * MAX_OPEN_FD - 1 then s.threads + [spare] else s.threads)
  {
    hide Partition, Erase, Create, U32, Total, Inserted, Filled;
    PartitionFacts(s.threads, s.idle, s.busy);
    InsertedStep(s, w, c);
    var t := Inserted(s, w, c);
    LastPlaceIsCount(t);
    if LastPlace(t) {
      SpareAdded(t, spare);
    }
  }

  lemma TwoIdle<W>(idle: seq<W>, w: W)
    requires |idle| >= 2 && w in idle
    ensures Erase(idle, w) != []
  {
  }

  lemma Returned<W, C>(s: Pool<W, C>, w: W)
    requires Inv(s) && w in s.busy
    ensures var t := MoveToIdle(s, w);
            && Partition(t.threads, t.idle, t.busy) && t.avail == U32(|t.idle|) && |t.idle| >= 2
            && t.idle == s.idle + [w] && t.busy == Erase(s.busy, w) && Open(t) == Open(s)
            && (forall i :: 0 <= i < |t.busy| ==> t.busy[i] in s.busy && t.busy[i] != w)
  {
    hide Partition, Erase, U32;
    PartitionFacts(s.threads, s.idle, s.busy);
    PartitionSwapped(s.threads, s.idle, s.busy);
    PartitionMoved(s.threads, s.busy, s.idle, w);
    EraseKeepsDistinct(s.busy, w);
    U32Step(|s.idle|);
    var t := MoveToIdle(s, w);
    TotalErase(s, s.busy, w);
    TotalAppend(s, s.idle, [w]);
    assert Total(s, [w]) == Count(s, w) by { assert [w][1..] == []; }
    TotalFrame(s, t, t.idle);
    TotalFrame(s, t, t.busy);
  }

  /** Close keeps the invariant, adds no worker, and leaves the worker idle. */
  lemma CloseStep<W, C>(s: Pool<W, C>, w: W, c: C)
    requires Inv(s) && w in s.threads && w in s.load && c in s.load[w]
    ensures var t := Close(s, w, c);
            && Inv(t) && Open(t) == Open(s) - 1 && t.threads == s.threads
            && w in t.idle && t.load == s.load[w := Erase(s.load[w], c)]
            && t.idle == (if w in s.busy then s.idle + [w] else s.idle)
  {
    hide Partition, Erase, U32, Total;
    PartitionFacts(s.threads, s.idle, s.busy);
    var r := if w in s.busy then MoveToIdle(s, w) else s;
    if w in s.busy {
      Returned(s, w);
    }
    PartitionFacts(r.threads, r.idle, r.busy);
    var t := r.(load := r.load[w := Erase(r.load[w], c)]);
    TotalChanged(r, t, r.idle, w);
    assert forall i :: 0 <= i < |r.busy| ==> r.busy[i] != w;
    TotalFrame(r, t, r.busy);
    CloseFilled(s, r, t, w);
  }

  lemma CloseFilled<W, C>(s: Pool<W, C>, r: Pool<W, C>, t: Pool<W, C>, w: W)
    requires Filled(s) && w in s.load && w in s.threads
    requires r == s || (r == MoveToIdle(s, w) && r.idle == s.idle + [w])
    requires forall i :: 0 <= i < |r.busy| ==> r.busy[i] in s.busy && r.busy[i] != w
    requires w in t.load && t == r.(load := r.load[w := t.load[w]]) && Count(t, w) == Count(s, w) - 1
    requires Count(s, w) <= MAX_OPEN_FD
    ensures Filled(t)
  {
    forall i | 0 <= i < |t.busy|
      ensures Count(t, t.busy[i]) == MAX_OPEN_FD
    {
      assert t.busy[i] in s.busy;
      var j :| 0 <= j < |s.busy| && s.busy[j] == t.busy[i];
      assert Count(s, s.busy[j]) == Count(t, t.busy[i]);
    }
    forall i | 0 <= i < |t.idle|
      ensures Count(t, t.idle[i]) < MAX_OPEN_FD
    {
      if t.idle[i] != w {
        assert t.idle[i] == s.idle[i];
        assert Count(s, s.idle[i]) == Count(t, t.idle[i]);
      }
    }
  }

  // ----- Whole runs -----

  datatype Event<W, C> = Accepted(index: nat, conn: C, spare: W) | Closed(worker: W, conn: C)

  ghost predicate Enabled<W, C>(s: Pool<W, C>, e: Event<W, C>) {
    match e
    case Accepted(i, c, spare) => i < |s.idle| && spare !in s.threads
    case Closed(w, c) => w in s.threads && w in s.load && c in s.load[w]
  }

  lemma IdleHasQueue<W, C>(s: Pool<W, C>, i: nat)
    requires Inv(s) && i < |s.idle|
    ensures s.idle[i] in s.load
  {
    PartitionFacts(s.threads, s.idle, s.busy);
    assert s.idle[i] in s.threads;
  }

  ghost function Step<W, C>(s: Pool<W, C>, e: Event<W, C>): (t: Pool<W, C>)
    requires Inv(s) && Enabled(s, e)
    ensures Inv(t)
  {
    match e
    case Accepted(i, c, spare) =>
      IdleHasQueue(s, i);
      AcceptStep(s, s.idle[i], c, spare);
      Accept(s, s.idle[i], c, spare)
    case Closed(w, c) =>
      CloseStep(s, w, c);
      Close(s, w, c)
  }

  ghost predicate Legal<W, C>(s: Pool<W, C>, es: seq<Event<W, C>>)
    requires Inv(s)
    decreases |es|
  {
    es == [] || (Enabled(s, es[0]) && Legal(Step(s, es[0]), es[1..]))
  }

  /** Where a run ends. */
  ghost function Final<W, C>(s: Pool<W, C>, es: seq<Event<W, C>>): (t: Pool<W, C>)
    requires Inv(s) && Legal(s, es)
    ensures Inv(t)
    decreases |es|
  {
    if es == [] then s else Final(Step(s, es[0]), es[1..])
  }

  /** The most connections that were ever open at once. */
  ghost function Peak<W, C>(s: Pool<W, C>, es: seq<Event<W, C>>): nat
    requires Inv(s) && Legal(s, es)
    decreases |es|
  {
    if es == [] then Open(s)
    else
      var rest := Peak(Step(s, es[0]), es[1..]);
      if Open(s) > rest then Open(s) else rest
  }

  function Opened<W, C>(es: seq<Event<W, C>>): int
    decreases |es|
  {
    if es == [] then 0 else (if es[0].Accepted? then 1 else -1) + Opened(es[1..])
  }

  /** The pool as its constructor leaves it. */
  function Start<W, C>(workers: seq<W>): Pool<W, C> {
    State(workers, workers, [], U32(|workers|), map w | w in workers :: [])
  }

  lemma StartIsGood<W, C>(workers: seq<W>)
    requires workers != [] && Distinct(workers)
    ensures Inv<W, C>(Start(workers)) && Open<W, C>(Start(workers)) == 0
  {
    var s: Pool<W, C> := Start(workers);
    assert multiset(workers[..0]) == multiset{};
    NoneOpen(s, workers);
  }

  lemma {:induction false} NoneOpen<W, C>(s: Pool<W, C>, ws: seq<W>)
    requires forall i :: 0 <= i < |ws| ==> Count(s, ws[i]) == 0
    ensures Total(s, ws) == 0
    decreases |ws|
  {
    if ws == [] {
    } else {
      NoneOpen(s, ws[1..]);
    }
  }

  /** Growth bound: a pool that has more workers than it started with has had, at some moment of the run, at
      least so many connections open that all its workers but one could hold just one more. */
  lemma {:induction false} GrowthNeedsLoad<W, C>(s: Pool<W, C>, es: seq<Event<W, C>>)
    requires Inv(s) && Legal(s, es)
    ensures |Final(s, es).threads| >= |s.threads|
    ensures |Final(s, es).threads| > |s.threads| ==>
              Peak(s, es) >= (|Final(s, es).threads| - 1) * MAX_OPEN_FD - 1
    ensures Open(Final(s, es)) == Open(s) + Opened(es)
    decreases |es|
  {
    hide Inv, Accept, Close, Open;
    if es == [] {
    } else {
      var t := Step(s, es[0]);
      StepCounts(s, es[0]);
      GrowthNeedsLoad(t, es[1..]);
      PeakAtLeast(t, es[1..]);
    }
  }

  lemma StepCounts<W, C>(s: Pool<W, C>, e: Event<W, C>)
    requires Inv(s) && Enabled(s, e)
    ensures var t := Step(s, e);
            && Open(t) == Open(s) + (if e.Accepted? then 1 else -1)
            && (|t.threads| == |s.threads| ||
                (|t.threads| == |s.threads| + 1 && e.Accepted? && Open(t) == |s.threads| * MAX_OPEN_FD - 1))
  {
    hide Inv, Accept, Close, Open;
    match e
    case Accepted(i, c, spare) =>
      IdleHasQueue(s, i);
      AcceptStep(s, s.idle[i], c, spare);
    case Closed(w, c) =>
      CloseStep(s, w, c);
  }

  lemma PeakAtLeast<W, C>(s: Pool<W, C>, es: seq<Event<W, C>>)
    requires Inv(s) && Legal(s, es)
    ensures Peak(s, es) >= Open(s)
  {
  }

  /** Spare capacity, in every reachable state: there is an idle worker to choose, a single one has two
      free places, a worker is busy exactly when its queue is full, the queues together hold the accepted
      connections that were not closed, and the counter counts the idle workers. */
  lemma SpareCapacity<W, C>(workers: seq<W>, es: seq<Event<W, C>>)
    requires workers != [] && Distinct(workers)
    requires (StartIsGood<W, C>(workers); Legal(Start(workers), es))
    ensures Inv<W, C>(Start(workers))
    ensures var t: Pool<W, C> := Final(Start(workers), es);
            && t.idle != [] && (|t.idle| == 1 ==> Count(t, t.idle[0]) + 2 <= MAX_OPEN_FD)
            && (forall i :: 0 <= i < |t.idle| ==> Count(t, t.idle[i]) < MAX_OPEN_FD)
            && (forall i :: 0 <= i < |t.threads| ==>
                              (t.threads[i] in t.busy <==> Count(t, t.threads[i]) == MAX_OPEN_FD))
            && Total(t, t.threads) == Opened(es)
            && t.avail == U32(|t.idle|)
  {
    StartIsGood<W, C>(workers);
    var s: Pool<W, C> := Start(workers);
    GrowthNeedsLoad(s, es);
    var t := Final(s, es);
    OpenIsSum(t);
    BusyIsFull(t);
  }

  lemma BusyIsFull<W, C>(t: Pool<W, C>)
    requires Inv(t)
    ensures forall i :: 0 <= i < |t.threads| ==>
                          (t.threads[i] in t.busy <==> Count(t, t.threads[i]) == MAX_OPEN_FD)
  {
    PartitionFacts(t.threads, t.idle, t.busy);
    forall i | 0 <= i < |t.threads|
      ensures t.threads[i] in t.busy <==> Count(t, t.threads[i]) == MAX_OPEN_FD
    {
      var w := t.threads[i];
      assert w in t.idle || w in t.busy;
      if w in t.busy {
        var j :| 0 <= j < |t.busy| && t.busy[j] == w;
        assert Count(t, t.busy[j]) == MAX_OPEN_FD;
      } else {
        var j :| 0 <= j < |t.idle| && t.idle[j] == w;
        assert Count(t, t.idle[j]) < MAX_OPEN_FD;
      }
    }
  }
}
