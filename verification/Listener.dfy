/** The listener's choice of the worker that gets the next connection, and how long that choice is sound. */
module Listener {
  import opened CTypes
  import opened Lists
  import opened Pools
  import opened ConnQueue
  import S = ConnPoolSpec

  datatype Choice<W> = Chosen(worker: W) | DivisionByZero | OutOfRange

  /** What the callback makes of a saved index: the worker it chooses, and the index it saves. */
  function Callback<W>(idleList: seq<W>, saved: nat): (Choice<W>, nat) {
    if idleList == [] then (DivisionByZero, saved)
    else (if saved < |idleList| then Chosen(idleList[saved]) else OutOfRange, (saved + 1) % |idleList|)
  }

  class TcpEventServer {
    var idleThreadCount: nat

    /** `ListenerEventCb` up to the write on the worker's pipe. The loop of the source is left at once
        whenever there is an idle worker; without one, the remainder by zero is undefined. */
    method ListenerEventCb<W>(idleList: seq<W>) returns (chosen: Choice<W>)
      modifies this
      ensures (chosen, idleThreadCount) == Callback(idleList, old(idleThreadCount))
      ensures idleList == [] ==> chosen == DivisionByZero && idleThreadCount == old(idleThreadCount)
      ensures idleList != [] ==> idleThreadCount == (old(idleThreadCount) + 1) % |idleList|
      ensures chosen.Chosen? <==> old(idleThreadCount) < |idleList|
      ensures chosen.Chosen? ==> chosen.worker == idleList[old(idleThreadCount)]
    {
      var i := idleThreadCount;
      var number := |idleList|;
      if number == 0 {
        return DivisionByZero;
      }
      idleThreadCount := (i + 1) % number;
      chosen := if i < number then Chosen(idleList[i]) else OutOfRange;
    }
  }

  /** The pool together with the index the listener has saved. */
  datatype Listening<W(==), C> = Listening(pool: S.Pool<W, C>, saved: nat)

  datatype Event<W, C> = Arrives(conn: C, spare: W) | Leaves(worker: W, conn: C)

  /** The pool is in order and the saved index denotes an idle worker. */
  ghost predicate Sound<W, C>(l: Listening<W, C>) {
    S.Inv(l.pool) && l.saved < |l.pool.idle|
  }

  ghost predicate Enabled<W, C>(l: Listening<W, C>, e: Event<W, C>) {
    match e
    case Arrives(c, spare) => spare !in l.pool.threads
    case Leaves(w, c) => w in l.pool.threads && w in l.pool.load && c in l.pool.load[w]
  }

  /** The worker that the callback chooses. */
  ghost function Pick<W, C>(l: Listening<W, C>): (w: W)
    requires Sound(l)
    ensures w == l.pool.idle[l.saved] && w in l.pool.load
  {
    S.IdleHasQueue(l.pool, l.saved);
    Callback(l.pool.idle, l.saved).0.worker
  }

  /** The connection that arrives goes to the worker that the callback chooses, and the callback's index is
      saved. */
  ghost function Next<W, C>(l: Listening<W, C>, e: Event<W, C>): (m: Listening<W, C>)
    requires Sound(l) && Enabled(l, e)
    ensures S.Inv(m.pool)
  {
    match e
    case Arrives(c, spare) =>
      S.AcceptStep(l.pool, Pick(l), c, spare);
      Listening(S.Accept(l.pool, Pick(l), c, spare), Callback(l.pool.idle, l.saved).1)
    case Leaves(w, c) =>
      Listening(S.Step(l.pool, S.Closed(w, c)), l.saved)
  }

  /** The connection that arrives fills the last worker but one of the idle list, and no spare worker
      takes its place. */
  ghost predicate Shrinks<W, C>(l: Listening<W, C>) {
    var idle := l.pool.idle;
    && l.saved + 2 == |idle| && S.Count(l.pool, idle[l.saved]) == MAX_OPEN_FD - 1
    && (|idle| == 2 ==> S.Count(l.pool, idle[1]) != MAX_OPEN_FD - 1)
  }

  /** When the index stays valid: always when a connection is closed, and when one arrives exactly unless
      the list shrinks just below the index, which then lies one past the end. */
  lemma IndexStaysValid<W, C>(l: Listening<W, C>, e: Event<W, C>)
    requires Sound(l) && Enabled(l, e)
    ensures e.Leaves? ==> Sound(Next(l, e))
    ensures e.Arrives? ==> (Sound(Next(l, e)) <==> !Shrinks(l))
    ensures !Sound(Next(l, e)) ==> Next(l, e).saved == |Next(l, e).pool.idle|
  {
    hide S.Inv, S.Accept, S.Close, S.Count;
    match e
    case Arrives(c, spare) =>
      IdleAfterAccept(l.pool, l.saved, c, spare);
      assert l.saved + 1 < |l.pool.idle| ==> (l.saved + 1) % |l.pool.idle| == l.saved + 1;
      assert l.saved + 1 == |l.pool.idle| ==> (l.saved + 1) % |l.pool.idle| == 0;
    case Leaves(w, c) =>
      IdleAfterClose(l.pool, w, c);
  }

  /** How many idle workers there are after a connection arrived at the one at index i. */
  lemma IdleAfterAccept<W, C>(s: S.Pool<W, C>, i: nat, c: C, spare: W)
    requires S.Inv(s) && i < |s.idle| && spare !in s.threads
    ensures var n := |S.Step(s, S.Accepted(i, c, spare)).idle|;
            n > 0 &&
            if S.Count(s, s.idle[i]) != MAX_OPEN_FD - 1 then n >= |s.idle|
            else if |s.idle| == 2 && S.Count(s, s.idle[1 - i]) == MAX_OPEN_FD - 1 then n == 2
            else n == |s.idle| - 1
  {
    hide S.Inserted, S.Inv, Partition, Erase, S.Open, U32;
    InvFacts(s, i);
    var w := s.idle[i];
    var t := S.Inserted(s, w, c);
    assert s.idle[i] in s.idle;
    S.OneCreated(t, spare);
    SomeIdle(S.Step(s, S.Accepted(i, c, spare)));
    if S.Count(s, w) + 1 < MAX_OPEN_FD {
      S.InsertedStays(s, w, c);
    } else {
      S.InsertedFills(s, w, c);
      EraseOne(s.idle, i);
      if |s.idle| == 2 {
        assert t.idle == [s.idle[1 - i]];
        assert S.Count(t, s.idle[1 - i]) == S.Count(s, s.idle[1 - i]);
      }
    }
  }

  lemma IdleAfterClose<W, C>(s: S.Pool<W, C>, w: W, c: C)
    requires S.Inv(s) && w in s.threads && w in s.load && c in s.load[w]
    ensures |S.Step(s, S.Closed(w, c)).idle| >= |s.idle|
  {
    hide S.Inv;
    S.CloseStep(s, w, c);
  }

  lemma SomeIdle<W, C>(s: S.Pool<W, C>)
    requires S.Inv(s)
    ensures |s.idle| > 0
  {
  }

  lemma InvFacts<W, C>(s: S.Pool<W, C>, i: nat)
    requires S.Inv(s) && i < |s.idle|
    ensures S.Mid(s) && Distinct(s.idle) && s.idle[i] in s.load && S.Count(s, s.idle[i]) < MAX_OPEN_FD
  {
    PartitionFacts(s.threads, s.idle, s.busy);
    S.IdleHasQueue(s, i);
  }

  // ----- Stretches over which the idle list stays the same -----

  /** The events can all happen, and none of them changes the idle list. */
  ghost predicate Steady<W, C>(l: Listening<W, C>, es: seq<Event<W, C>>)
    decreases |es|
  {
    && Sound(l)
    && (es == [] ||
        (Enabled(l, es[0]) && Next(l, es[0]).pool.idle == l.pool.idle && Steady(Next(l, es[0]), es[1..])))
  }

  /** The workers that the arriving connections go to. */
  ghost function Picks<W, C>(l: Listening<W, C>, es: seq<Event<W, C>>): seq<W>
    requires Steady(l, es)
    decreases |es|
  {
    if es == [] then []
    else (if es[0].Arrives? then [Pick(l)] else []) + Picks(Next(l, es[0]), es[1..])
  }

  /** The index that is j turns further on. */
  function Turn(saved: nat, j: nat, n: nat): (i: nat)
    requires n > 0
    ensures i < n
  {
    (saved + j) % n
  }

  lemma {:induction false} PickAt<W, C>(l: Listening<W, C>, es: seq<Event<W, C>>, j: nat)
    requires Steady(l, es) && j < |Picks(l, es)|
    ensures Sound(l) && Picks(l, es)[j] == l.pool.idle[Turn(l.saved, j, |l.pool.idle|)]
    decreases |es|
  {
    hide S.Inv, Steady, Picks, Next, Turn;
    FirstPick(l, es);
    NextTurn(l.saved, |l.pool.idle|, if j > 0 then j - 1 else 0);
    var m := Next(l, es[0]);
    if es[0].Leaves? {
      PickAt(m, es[1..], j);
    } else if j > 0 {
      PickAt(m, es[1..], j - 1);
    }
  }

  lemma FirstPick<W, C>(l: Listening<W, C>, es: seq<Event<W, C>>)
    requires Steady(l, es) && |Picks(l, es)| > 0
    ensures es != [] && Sound(l) && Enabled(l, es[0])
    ensures var m := Next(l, es[0]);
            && Steady(m, es[1..]) && m.pool.idle == l.pool.idle
            && (if es[0].Leaves? then m.saved == l.saved && Picks(l, es) == Picks(m, es[1..])
                else m.saved == (l.saved + 1) % |l.pool.idle| &&
                     Picks(l, es) == [l.pool.idle[l.saved]] + Picks(m, es[1..]))
  {
    hide S.Inv, S.Step;
  }

  lemma Remainder(a: nat, n: nat, q: int, r: nat)
    requires n > 0 && a == q * n + r && r < n
    ensures a % n == r
  {
    var d := a / n - q;
    assert d * n == r - a % n;
    assert d != 0 ==> d * n >= n || d * n <= 0 - n;
  }

  lemma Wraps(n: nat, j: nat)
    requires n > 0
    ensures (n + j) % n == j % n
  {
    Remainder(n + j, n, j / n + 1, j % n);
  }

  lemma Small(i: nat, n: nat)
    requires i < n
    ensures i % n == i
  {
  }

  lemma NextTurn(saved: nat, n: nat, j: nat)
    requires saved < n
    ensures Turn((saved + 1) % n, j, n) == Turn(saved, j + 1, n) && Turn(saved, 0, n) == saved
  {
    Small(saved, n);
    if saved + 1 < n {
      Small(saved + 1, n);
      assert saved + (j + 1) == (saved + 1) + j;
    } else {
      Wraps(n, 0);
      Small(0, n);
      Wraps(n, j);
      assert saved + (j + 1) == n + j;
    }
  }

  lemma SameRemainder(a: nat, b: nat, n: nat)
    requires n > 0 && a <= b
    ensures a % n == b % n <==> (b - a) % n == 0
  {
    if a % n == b % n {
      assert b - a == (b / n - a / n) * n;
      Remainder(b - a, n, b / n - a / n, 0);
    }
    if (b - a) % n == 0 {
      assert b == ((b - a) / n + a / n) * n + a % n;
      Remainder(b, n, (b - a) / n + a / n, a % n);
    }
  }

  lemma SameTurn(saved: nat, a: nat, b: nat, n: nat)
    requires n > 0 && a <= b
    ensures Turn(saved, a, n) == Turn(saved, b, n) <==> (b - a) % n == 0
  {
    SameRemainder(saved + a, saved + b, n);
    assert (saved + b) - (saved + a) == b - a;
  }

  /** Round robin: while the idle list stays the same, two connections go to the same worker exactly when
      the number of turns between them is a multiple of the number of idle workers. */
  lemma RoundRobin<W, C>(l: Listening<W, C>, es: seq<Event<W, C>>, a: nat, b: nat)
    requires Steady(l, es) && a <= b < |Picks(l, es)|
    ensures Picks(l, es)[a] == Picks(l, es)[b] <==> (b - a) % |l.pool.idle| == 0
  {
    hide S.Inv, Steady, Picks, Turn;
    PickAt(l, es, a);
    PickAt(l, es, b);
    IdleIsDistinct(l.pool);
    SameTurn(l.saved, a, b, |l.pool.idle|);
  }

  lemma IdleIsDistinct<W, C>(s: S.Pool<W, C>)
    requires S.Inv(s)
    ensures Distinct(s.idle)
  {
    PartitionFacts(s.threads, s.idle, s.busy);
  }

  // ----- The saved index can run past the end -----

  ghost predicate Possible<W, C>(l: Listening<W, C>, es: seq<Event<W, C>>)
    decreases |es|
  {
    es == [] || (Sound(l) && Enabled(l, es[0]) && Possible(Next(l, es[0]), es[1..]))
  }

  /** Where the events lead; what cannot happen is passed over. */
  ghost function End<W, C>(l: Listening<W, C>, es: seq<Event<W, C>>): Listening<W, C>
    decreases |es|
  {
    if es == [] then l
    else End(if Sound(l) && Enabled(l, es[0]) then Next(l, es[0]) else l, es[1..])
  }

  /** The connections number k up to 1999, one after the other. */
  function Connections(k: nat): (es: seq<Event<nat, nat>>)
    ensures |es| == if k < MAX_OPEN_FD then MAX_OPEN_FD - k else 0
    decreases MAX_OPEN_FD - k
  {
    if k >= MAX_OPEN_FD then [] else [Arrives(k, if k < MAX_OPEN_FD - 1 then 1 else 2)] + Connections(k + 1)
  }

  /** A pool with a single worker that holds k connections. */
  ghost predicate OneWorker(l: Listening<nat, nat>, k: nat) {
    && l.pool.threads == l.pool.idle == [0] && l.pool.busy == [] && l.pool.avail == 1
    && l.pool.load.Keys == {0} && |l.pool.load[0]| == k && l.saved == 0
  }

  /** A second worker was created, and the first has one free place. */
  ghost predicate TwoWorkers(l: Listening<nat, nat>) {
    && l.pool.threads == l.pool.idle == [0, 1] && l.pool.busy == [] && l.pool.avail == 2
    && l.pool.load.Keys == {0, 1} && |l.pool.load[0]| == MAX_OPEN_FD - 1 && l.pool.load[1] == []
    && l.saved == 0
  }

  lemma OneMore(l: Listening<nat, nat>, k: nat)
    requires OneWorker(l, k) && k <= MAX_OPEN_FD - 2
    ensures Sound(l) && Enabled(l, Arrives(k, 1))
    ensures k < MAX_OPEN_FD - 2 ==> OneWorker(Next(l, Arrives(k, 1)), k + 1)
    ensures k == MAX_OPEN_FD - 2 ==> TwoWorkers(Next(l, Arrives(k, 1)))
  {
    S.OneCreated(S.Inserted(l.pool, 0, k), 1);
  }

  lemma OneTooMany(l: Listening<nat, nat>, c: nat)
    requires TwoWorkers(l)
    ensures Sound(l) && Enabled(l, Arrives(c, 2))
    ensures var m := Next(l, Arrives(c, 2)); m.pool.idle == [1] && m.saved == 1
  {
    assert Erase([0, 1], 0) == [1];
  }

  lemma {:induction false} FillUp(l: Listening<nat, nat>, k: nat)
    requires OneWorker(l, k) && k <= MAX_OPEN_FD - 2
    ensures Possible(l, Connections(k))
    ensures var m := End(l, Connections(k)); m.pool.idle == [1] && m.saved == 1
    decreases MAX_OPEN_FD - k
  {
    OneMore(l, k);
    var m := Next(l, Arrives(k, 1));
    if k < MAX_OPEN_FD - 2 {
      FillUp(m, k + 1);
    } else {
      OneTooMany(m, MAX_OPEN_FD - 1);
      var last := Connections(MAX_OPEN_FD - 1);
      assert last == [Arrives(MAX_OPEN_FD - 1, 2)];
      assert End(m, last) == End(Next(m, last[0]), last[1..]) == Next(m, last[0]);
    }
  }

  /** A pool that starts with one worker: after 2000 connections the only idle worker has index 0, and the
      saved index is 1. */
  lemma IndexRunsPastTheEnd()
    ensures var l: Listening<nat, nat> := Listening(S.Start([0]), 0);
            && Sound(l) && Possible(l, Connections(0)) && !Sound(End(l, Connections(0)))
  {
    var l: Listening<nat, nat> := Listening(S.Start([0]), 0);
    assert OneWorker(l, 0);
    S.StartIsGood<nat, nat>([0]);
    FillUp(l, 0);
  }
}
