/** Whole runs of the job pool: which jobs are where, and in which order the idle workers stand. */
module JobPoolRuns {
  import opened Lists
  import opened Pools
  import opened JobPoolSpec

  /** A pool with its past. Jobs are numbered in the order in which they are submitted; `since` says
      when a worker last became idle. */
  datatype Run<W(==)> = Run(
    pool: State<W, nat>,
    submitted: nat,
    executed: seq<nat>,
    since: map<W, nat>,
    clock: nat)

  datatype Event<W> = Dispatched(recruits: seq<W>) | Finished(worker: W)

  ghost predicate Enabled<W>(l: Limits, r: Run<W>, e: Event<W>) {
    match e
    case Dispatched(recruits) =>
      CanDispatch(l, r.pool) && |recruits| == Growth(l, r.pool) && Fresh(r.pool.threads, recruits)
    case Finished(w) => w in r.pool.busy
  }

  /** Workers become idle one after the other. */
  function Stamp<W>(since: map<W, nat>, clock: nat, ws: seq<W>): map<W, nat>
    decreases |ws|
  {
    if ws == [] then since else Stamp(since[ws[0] := clock], clock + 1, ws[1..])
  }

  ghost function Step<W>(l: Limits, r: Run<W>, e: Event<W>): Run<W>
    requires Inv(l, r.pool) && Enabled(l, r, e)
  {
    match e
    case Dispatched(recruits) =>
      Run(Dispatch(l, r.pool, recruits, r.submitted), r.submitted + 1, r.executed,
          Stamp(r.since, r.clock, recruits), r.clock + |recruits|)
    case Finished(w) =>
      HoldsJob(l, r.pool, w);
      Run(Finish(l, r.pool, w), r.submitted, r.executed + [r.pool.load[w]], r.since[w := r.clock], r.clock + 1)
  }

  lemma HoldsJob<W>(l: Limits, s: State<W, nat>, w: W)
    requires Inv(l, s) && w in s.busy
    ensures w in s.load
  {
  }

  /** The pool as its constructor leaves it. */
  function Start<W>(workers: seq<W>): Run<W> {
    Run(State(workers, workers, [], |workers|, map[]), 0, [], Stamp(map[], 0, workers), |workers|)
  }

  /** The jobs the busy workers hold. */
  ghost function Running<W>(jobs: map<W, nat>, busy: seq<W>): (r: seq<nat>)
    requires OnePerBusy(jobs, busy)
    ensures |r| == |busy|
  {
    seq(|busy|, i requires 0 <= i < |busy| => jobs[busy[i]])
  }

  function Tickets(n: nat): (r: seq<nat>)
    ensures |r| == n && forall i :: 0 <= i < n ==> r[i] == i
  {
    seq(n, i => i)
  }

  /** Every submitted job is being run by a worker or has been executed, and none is both or twice. */
  ghost predicate Conserved<W>(r: Run<W>) {
    && OnePerBusy(r.pool.load, r.pool.busy)
    && multiset(Running(r.pool.load, r.pool.busy)) + multiset(r.executed) == multiset(Tickets(r.submitted))
  }

  /** A line stands in the order in which its workers became idle. */
  ghost predicate InOrder<W>(line: seq<W>, since: map<W, nat>, clock: nat) {
    && (forall i :: 0 <= i < |line| ==> line[i] in since && since[line[i]] < clock)
    && (forall i, j :: 0 <= i < j < |line| ==> since[line[i]] < since[line[j]])
  }

  ghost predicate RunInv<W>(l: Limits, r: Run<W>) {
    Inv(l, r.pool) && Conserved(r) && InOrder(r.pool.idle, r.since, r.clock)
  }

  lemma {:induction false} StampKeepsOrder<W>(line: seq<W>, since: map<W, nat>, clock: nat, ws: seq<W>)
    requires InOrder(line, since, clock) && Distinct(line + ws)
    ensures InOrder(line + ws, Stamp(since, clock, ws), clock + |ws|)
    decreases |ws|
  {
    if ws == [] {
      assert line + [] == line;
    } else {
      var w, since' := ws[0], since[ws[0] := clock];
      var line' := line + [w];
      assert line' + ws[1..] == line + ws;
      assert forall i :: 0 <= i < |line| ==> line[i] == (line + ws)[i] && line[i] != (line + ws)[|line|] == w;
      assert InOrder(line', since', clock + 1);
      StampKeepsOrder(line', since', clock + 1, ws[1..]);
    }
  }

  lemma NothingInOrder<W>()
    ensures InOrder<W>([], map[], 0)
  {
  }

  lemma StartIsGood<W>(l: Limits, workers: seq<W>)
    requires l.Ok() && |workers| == l.init && Distinct(workers)
    ensures RunInv(l, Start(workers))
  {
    hide Distinct, InOrder, Stamp;
    assert [] + workers == workers;
    NothingInOrder<W>();
    StampKeepsOrder([], map[], 0, workers);
    assert Running(map[], workers[..0]) == [];
  }

  lemma RunningMore<W>(jobs: map<W, nat>, busy: seq<W>, w: W, j: nat)
    requires OnePerBusy(jobs, busy) && w !in busy
    ensures OnePerBusy(jobs[w := j], busy + [w])
    ensures Running(jobs[w := j], busy + [w]) == Running(jobs, busy) + [j]
  {
    assert forall i :: 0 <= i < |busy| ==> busy[i] != w;
    assert (busy + [w])[|busy|] == w;
  }

  lemma DispatchConserves<W>(l: Limits, r: Run<W>, recruits: seq<W>)
    requires RunInv(l, r) && Enabled(l, r, Dispatched(recruits))
    ensures Conserved(Step(l, r, Dispatched(recruits)))
  {
    hide OnePerBusy, Dispatch, Fresh, Partition, Running;
    DispatchStep(l, r.pool, recruits, r.submitted);
    var line := r.pool.idle + recruits;
    RunningMore(r.pool.load, r.pool.busy, line[0], r.submitted);
    assert Tickets(r.submitted + 1) == Tickets(r.submitted) + [r.submitted];
  }

  lemma WithoutOne<T>(s: seq<T>, i: nat)
    requires i < |s|
    ensures multiset(s) == multiset(s[..i] + s[i + 1..]) + multiset{s[i]}
  {
    assert s == s[..i] + [s[i]] + s[i + 1..];
  }

  lemma RunningErased<W>(jobs: map<W, nat>, busy: seq<W>, w: W)
    requires OnePerBusy(jobs, busy) && Distinct(busy) && w in busy
    ensures OnePerBusy(jobs - {w}, Erase(busy, w))
    ensures multiset(Running(jobs, busy)) == multiset(Running(jobs - {w}, Erase(busy, w))) + multiset{jobs[w]}
  {
    hide Erase, Distinct;
    JobGone(jobs, busy, w);
    var i :| 0 <= i < |busy| && busy[i] == w;
    EraseOne(busy, i);
    var all, rest := Running(jobs, busy), Running(jobs - {w}, Erase(busy, w));
    assert rest == all[..i] + all[i + 1..];
    WithoutOne(all, i);
  }

  lemma FinishConserves<W>(l: Limits, r: Run<W>, w: W)
    requires RunInv(l, r) && w in r.pool.busy
    ensures Conserved(Step(l, r, Finished(w)))
  {
    FinishStep(l, r.pool, w);
    PartitionFacts(r.pool.threads, r.pool.idle, r.pool.busy);
    RunningErased(r.pool.load, r.pool.busy, w);
    HoldsJob(l, r.pool, w);
  }

  lemma OrderOfSuffix<W>(line: seq<W>, since: map<W, nat>, clock: nat, n: nat)
    requires InOrder(line, since, clock) && n <= |line|
    ensures InOrder(line[n..], since, clock)
  {
  }

  lemma DispatchKeepsOrder<W>(l: Limits, r: Run<W>, recruits: seq<W>)
    requires RunInv(l, r) && Enabled(l, r, Dispatched(recruits))
    ensures var t := Step(l, r, Dispatched(recruits));
            && InOrder(r.pool.idle + recruits, t.since, t.clock)
            && InOrder(t.pool.idle, t.since, t.clock)
  {
    var line := r.pool.idle + recruits;
    DispatchStep(l, r.pool, recruits, r.submitted);
    PartitionGrown(r.pool.threads, r.pool.idle, r.pool.busy, recruits);
    PartitionFacts(r.pool.threads + recruits, line, r.pool.busy);
    StampKeepsOrder(r.pool.idle, r.since, r.clock, recruits);
    OrderOfSuffix(line, Stamp(r.since, r.clock, recruits), r.clock + |recruits|, 1);
  }

  lemma JoinKeepsOrder<W>(line: seq<W>, since: map<W, nat>, clock: nat, w: W)
    requires InOrder(line, since, clock) && w !in line
    ensures InOrder(line + [w], since[w := clock], clock + 1)
  {
    assert forall i :: 0 <= i < |line| ==> line[i] != w;
  }

  lemma FinishedIdle<W>(l: Limits, s: State<W, nat>, w: W)
    requires Inv(l, s) && w in s.busy
    ensures w !in s.idle && l.init <= l.high
    ensures var line := s.idle + [w]; Finish(l, s, w).idle == if |line| > l.high then line[|line| - l.init..] else line
  {
    hide Partition, Finish;
    FinishStep(l, s, w);
    PartitionFacts(s.threads, s.idle, s.busy);
  }

  lemma FinishKeepsOrder<W>(l: Limits, r: Run<W>, w: W)
    requires RunInv(l, r) && w in r.pool.busy
    ensures var t := Step(l, r, Finished(w));
            && InOrder(r.pool.idle + [w], t.since, t.clock) && InOrder(t.pool.idle, t.since, t.clock)
  {
    hide InOrder, Inv, Conserved, Finish;
    var line := r.pool.idle + [w];
    FinishedIdle(l, r.pool, w);
    JoinKeepsOrder(r.pool.idle, r.since, r.clock, w);
    if |line| > l.high {
      OrderOfSuffix(line, r.since[w := r.clock], r.clock + 1, |line| - l.init);
    }
  }

  /** Every step of a run keeps the sizes, the partition, the jobs and the order. */
  lemma StepKeepsRunInv<W>(l: Limits, r: Run<W>, e: Event<W>)
    requires RunInv(l, r) && Enabled(l, r, e)
    ensures RunInv(l, Step(l, r, e))
  {
    match e
    case Dispatched(recruits) =>
      DispatchStep(l, r.pool, recruits, r.submitted);
      DispatchConserves(l, r, recruits);
      DispatchKeepsOrder(l, r, recruits);
    case Finished(w) =>
      FinishStep(l, r.pool, w);
      FinishConserves(l, r, w);
      FinishKeepsOrder(l, r, w);
  }

  /** The states a pool can reach. */
  ghost predicate Reaches<W>(l: Limits, r: Run<W>, es: seq<Event<W>>, t: Run<W>)
    requires RunInv(l, r)
    decreases |es|
  {
    if es == [] then t == r
    else Enabled(l, r, es[0]) && (StepKeepsRunInv(l, r, es[0]); Reaches(l, Step(l, r, es[0]), es[1..], t))
  }

  lemma {:induction false} ReachedIsGood<W>(l: Limits, r: Run<W>, es: seq<Event<W>>, t: Run<W>)
    requires RunInv(l, r) && Reaches(l, r, es, t)
    ensures RunInv(l, t)
    decreases |es|
  {
    if es == [] {
    } else {
      StepKeepsRunInv(l, r, es[0]);
      ReachedIsGood(l, Step(l, r, es[0]), es[1..], t);
    }
  }

  /** In every reachable state: no worker is listed twice, the idle and the busy workers are disjoint and
      together are all of them, their number stays within bounds, and the counter counts the idle ones. */
  lemma PoolSizes<W>(l: Limits, workers: seq<W>, es: seq<Event<W>>, t: Run<W>)
    requires l.Ok() && |workers| == l.init && Distinct(workers)
    requires (StartIsGood(l, workers); Reaches(l, Start(workers), es, t))
    ensures var p := t.pool;
            && Distinct(p.threads) && Distinct(p.idle) && Distinct(p.busy)
            && (forall w :: w in p.threads <==> w in p.idle || w in p.busy)
            && (forall w :: w in p.idle ==> w !in p.busy && w !in p.load)
            && (forall w :: w in p.busy ==> w in p.load)
            && l.init <= |p.threads| <= l.max && |p.idle| <= l.high
            && p.avail == |p.idle|
  {
    StartIsGood(l, workers);
    ReachedIsGood(l, Start(workers), es, t);
    PartitionFacts(t.pool.threads, t.pool.idle, t.pool.busy);
  }

  /** In every reachable state each submitted job is on exactly one busy worker and not executed, or
      executed exactly once and on none. */
  lemma JobsExactlyOnce<W>(l: Limits, workers: seq<W>, es: seq<Event<W>>, t: Run<W>, job: nat)
    requires l.Ok() && |workers| == l.init && Distinct(workers)
    requires (StartIsGood(l, workers); Reaches(l, Start(workers), es, t))
    requires job < t.submitted
    ensures OnePerBusy(t.pool.load, t.pool.busy)
    ensures var running := Running(t.pool.load, t.pool.busy);
            multiset(running)[job] + multiset(t.executed)[job] == 1
  {
    StartIsGood(l, workers);
    ReachedIsGood(l, Start(workers), es, t);
    TicketOnce(t.submitted, job);
  }

  lemma TicketOnce(n: nat, job: nat)
    requires job < n
    ensures multiset(Tickets(n))[job] == 1
  {
    var ts := Tickets(n);
    DistinctCounts(ts);
    assert ts[job] == job;
    assert job in multiset(ts);
  }

  /** Dispatch takes the worker that has been idle longest. */
  lemma OldestIdleFirst<W>(l: Limits, r: Run<W>, recruits: seq<W>)
    requires RunInv(l, r) && Enabled(l, r, Dispatched(recruits))
    ensures var t := Step(l, r, Dispatched(recruits));
            var line := r.pool.idle + recruits;
            && line != [] && t.pool.busy == r.pool.busy + [line[0]]
            && t.pool.load == r.pool.load[line[0] := r.submitted]
            && (forall i :: 0 <= i < |line| ==> line[i] in t.since)
            && (forall i :: 1 <= i < |line| ==> t.since[line[0]] < t.since[line[i]])
  {
    DispatchStep(l, r.pool, recruits, r.submitted);
    DispatchKeepsOrder(l, r, recruits);
  }

  /** A trim leaves the `init` workers that became idle last, in their order, the caller at the end. */
  lemma TrimKeepsNewest<W>(l: Limits, r: Run<W>, w: W)
    requires RunInv(l, r) && w in r.pool.busy && |r.pool.idle| + 1 > l.high
    ensures var t := Step(l, r, Finished(w));
            var line := r.pool.idle + [w];
            && |t.pool.idle| == l.init && t.pool.idle == line[|line| - l.init..] && w in t.pool.idle
            && (forall i :: 0 <= i < |line| ==> line[i] in t.since)
            && (forall i, k :: 0 <= i < |line| - l.init && 0 <= k < l.init ==> t.since[line[i]] < t.since[t.pool.idle[k]])
  {
    hide Partition, Finish, Erase, Conserved, OnePerBusy;
    FinishStep(l, r.pool, w);
    FinishKeepsOrder(l, r, w);
    assert Step(l, r, Finished(w)).pool.idle[l.init - 1] == w;
  }
}
