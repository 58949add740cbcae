/** How often a worker stands on the busy list, and when it is on both lists, in every interleaving. */
module FineListing {
  import opened CTypes
  import opened Lists
  import opened FineLocks

  /** The caller that holds the worker's mutex has put it on the busy list and not given its job yet. */
  ghost predicate Halfway<W, J>(s: Pool<W, J>, w: W)
    requires w in s.workers
  {
    var o := s.workers[w].owner;
    && o.Caller? && o.d in s.calls && s.calls[o.d].worker == Some(w) && s.calls[o.d].phase in {Shown, Moved}
  }

  /** Whether a move gives a job to worker w while it still has one. */
  ghost predicate Hits<W, J>(s: Pool<W, J>, m: Move<W, J>, w: W)
    requires Enabled(s, m)
  {
    m.Give? && s.calls[m.d].worker == Some(w) && s.workers[w].job.Some?
  }

  /** How many times in a run a job was overwritten at worker w. */
  ghost function OverwrittenAt<W, J>(s: Pool<W, J>, ms: seq<Move<W, J>>, w: W): nat
    requires Possible(s, ms)
    decreases |ms|
  {
    if ms == [] then 0 else (if Hits(s, ms[0], w) then 1 else 0) + OverwrittenAt(Step(s, ms[0]), ms[1..], w)
  }

  function One(b: bool): nat { if b then 1 else 0 }

  /** A worker stands on the busy list once for the job it has, once for the one it has just run, once for the
      one it is about to get, and once for each job that was overwritten at it. */
  ghost predicate Counted<W, J>(s: Pool<W, J>, w: W, n: nat) {
    if w in s.workers then
      var t := s.workers[w];
      multiset(s.busy)[w] == One(t.job.Some?) + One(t.stage in {Ran, Pushed}) + One(Halfway(s, w)) + n
    else n == 0
  }

  lemma Joined<W>(s: seq<W>, v: W, w: W)
    ensures multiset(s + [v])[w] == multiset(s)[w] + One(v == w)
  {
  }

  lemma Left<W>(s: seq<W>, v: W, w: W)
    requires v in s
    ensures multiset(Erase(s, v))[w] == multiset(s)[w] - One(v == w)
  {
    EraseMultiset(s, v);
  }

  lemma ToBusyCounts<W, J>(s: Pool<W, J>, d: nat, w: W, n: nat)
    requires Enabled(s, ToBusy(d)) && CallOk(s, d) && Counted(s, w, n)
    ensures Counted(Step(s, ToBusy(d)), w, n)
  {
    var v := s.calls[d].worker.value;
    Joined(s.busy, v, w);
  }

  lemma FromBusyCounts<W, J>(s: Pool<W, J>, v: W, w: W, n: nat)
    requires Enabled(s, FromBusy(v)) && Counted(s, w, n)
    ensures Counted(Step(s, FromBusy(v)), w, n)
  {
    if v == w {
      assert w in multiset(s.busy);
    }
    if v in s.busy {
      Left(s.busy, v, w);
    }
  }

  lemma AppendCounts<W, J>(s: Pool<W, J>, m: Move<W, J>, w: W, n: nat)
    requires ListsOk(s) && Enabled(s, m) && m.Append? && Counted(s, w, n)
    ensures Counted(Step(s, m), w, n)
  {
    if w == m.recruit {
      assert w !in multiset(s.busy) by {
        assert forall i :: 0 <= i < |s.busy| ==> s.busy[i] != w;
      }
    }
  }

  lemma GiveCounts<W, J>(s: Pool<W, J>, d: nat, w: W, n: nat)
    requires Enabled(s, Give(d)) && CallOk(s, d) && Counted(s, w, n)
    ensures Counted(Step(s, Give(d)), w, n + One(Hits(s, Give(d), w)))
  {
  }

  /** The other sections of a call leave the busy list alone. */
  lemma CallerCounts<W, J>(s: Pool<W, J>, m: Move<W, J>, w: W, n: nat)
    requires Enabled(s, m) && (m.Enter? || m.Pick? || m.FromIdle?) && Counted(s, w, n)
    requires m.FromIdle? ==> CallOk(s, m.d)
    ensures Counted(Step(s, m), w, n)
  {
  }

  lemma MutexCounts<W, J>(s: Pool<W, J>, m: Move<W, J>, w: W, n: nat)
    requires Enabled(s, m) && (m.Lock? || m.Release?) && CallOk(s, m.d) && Counted(s, w, n)
    ensures Counted(Step(s, m), w, n)
  {
  }

  lemma WorkerCounts<W, J>(s: Pool<W, J>, m: Move<W, J>, w: W, n: nat)
    requires Enabled(s, m) && (m.Wake? || m.Take? || m.Execute? || m.ToIdle? || m.Done?) && WorkerOk(s, m.w) && Counted(s, w, n)
    ensures Counted(Step(s, m), w, n)
  {
  }

  lemma TrimCounts<W, J>(s: Pool<W, J>, m: Move<W, J>, w: W, n: nat)
    requires Enabled(s, m) && m.Trim? && Counted(s, w, n)
    ensures Counted(Step(s, m), w, n)
  {
    TrimFrame(s, m.num);
  }

  /** What the invariant says about the one who moves. */
  lemma MoverOk<W, J>(s: Pool<W, J>, m: Move<W, J>)
    requires Inv(s) && Enabled(s, m)
    ensures ListsOk(s)
    ensures m.Pick? || m.Lock? || m.ToBusy? || m.FromIdle? || m.Give? || m.Release? ==> m.d in s.calls && CallOk(s, m.d)
    ensures m.Wake? || m.Take? || m.Execute? || m.ToIdle? || m.FromBusy? || m.Done? ==> m.w in s.workers && WorkerOk(s, m.w)
  {
    hide ListsOk, CallOk, WorkerOk;
  }

  lemma MoveCounts<W, J>(s: Pool<W, J>, m: Move<W, J>, w: W, n: nat)
    requires Inv(s) && Enabled(s, m) && Counted(s, w, n)
    ensures Counted(Step(s, m), w, n + One(Hits(s, m, w)))
  {
    hide Inv, Enabled, Step, Counted, CallOk, WorkerOk, ListsOk;
    MoverOk(s, m);
    match m
    case ToBusy(d) => ToBusyCounts(s, d, w, n);
    case FromBusy(v) => FromBusyCounts(s, v, w, n);
    case Give(d) => GiveCounts(s, d, w, n);
    case Append(_, _) => AppendCounts(s, m, w, n);
    case Enter(_, _) => CallerCounts(s, m, w, n);
    case Pick(_) => CallerCounts(s, m, w, n);
    case Lock(_) => MutexCounts(s, m, w, n);
    case FromIdle(_) => CallerCounts(s, m, w, n);
    case Release(_) => MutexCounts(s, m, w, n);
    case Trim(_, _) => TrimCounts(s, m, w, n);
    case _ => WorkerCounts(s, m, w, n);
  }

  lemma {:induction false} RunCounts<W, J>(s: Pool<W, J>, ms: seq<Move<W, J>>, w: W, n: nat)
    requires Inv(s) && Possible(s, ms) && Counted(s, w, n)
    ensures Counted(End(s, ms), w, n + OverwrittenAt(s, ms, w))
    decreases |ms|
  {
    hide Inv, Enabled, Step, Counted, Hits;
    if ms == [] {
    } else {
      StepKeeps(s, ms[0]);
      MoveCounts(s, ms[0], w, n);
      RunCounts(Step(s, ms[0]), ms[1..], w, n + One(Hits(s, ms[0], w)));
    }
  }

  /** A listed worker that is not idle has a job, or has just run one, or is in the hand of a caller that took
      it off the idle list. */
  ghost predicate Accounted<W, J>(s: Pool<W, J>, w: W) {
    w in s.threads && w !in s.idle ==>
      && w in s.workers
      && var t := s.workers[w];
         t.job.Some? || t.stage == Ran || (Halfway(s, w) && s.calls[t.owner.d].phase == Moved)
  }

  lemma FromIdleAccounts<W, J>(s: Pool<W, J>, d: nat, w: W)
    requires Enabled(s, FromIdle(d)) && CallOk(s, d) && Accounted(s, w)
    ensures Accounted(Step(s, FromIdle(d)), w)
  {
    var v := s.calls[d].worker.value;
    if w in s.idle && w != v {
      EraseElements(s.idle, v);
    }
  }

  lemma CallerAccounts<W, J>(s: Pool<W, J>, m: Move<W, J>, w: W)
    requires Enabled(s, m) && (m.Pick? || m.Lock? || m.ToBusy? || m.Give? || m.Release?) && CallOk(s, m.d) && Accounted(s, w)
    ensures Accounted(Step(s, m), w)
  {
  }

  lemma ArrivalAccounts<W, J>(s: Pool<W, J>, m: Move<W, J>, w: W)
    requires Enabled(s, m) && (m.Enter? || m.Append?) && Accounted(s, w)
    ensures Accounted(Step(s, m), w)
  {
  }

  lemma WorkerAccounts<W, J>(s: Pool<W, J>, m: Move<W, J>, w: W)
    requires Enabled(s, m) && (m.Wake? || m.Take? || m.Execute? || m.ToIdle? || m.FromBusy? || m.Done?)
    requires WorkerOk(s, m.w) && Accounted(s, w)
    ensures Accounted(Step(s, m), w)
  {
  }

  lemma {:induction false} TrimAccounts<W, J>(s: Pool<W, J>, num: nat, w: W)
    requires Inv(s) && Accounted(s, w)
    ensures Accounted(DeleteIdle(s, num), w)
    decreases num
  {
    hide Inv;
    if num == 0 {
    } else {
      DeleteFrontKeeps(s);
      FrontAccounts(s, w);
      TrimAccounts(DeleteFront(s), num - 1, w);
    }
  }

  lemma FrontAccounts<W, J>(s: Pool<W, J>, w: W)
    requires Inv(s) && Accounted(s, w)
    ensures Accounted(DeleteFront(s), w)
  {
    if s.idle != [] {
      DeleteFrontLists(s);
      EraseElements(s.threads, s.idle[0]);
    }
  }

  lemma {:induction false} RunAccounts<W, J>(s: Pool<W, J>, ms: seq<Move<W, J>>, w: W)
    requires Inv(s) && Possible(s, ms) && Accounted(s, w)
    ensures Accounted(End(s, ms), w)
    decreases |ms|
  {
    hide Inv, Enabled, Step, Accounted;
    if ms == [] {
    } else {
      StepKeeps(s, ms[0]);
      StepAccounts(s, ms[0], w);
      RunAccounts(Step(s, ms[0]), ms[1..], w);
    }
  }

  lemma StepAccounts<W, J>(s: Pool<W, J>, m: Move<W, J>, w: W)
    requires Inv(s) && Enabled(s, m) && Accounted(s, w)
    ensures Accounted(Step(s, m), w)
  {
    hide Inv, Enabled, Step, Accounted, CallOk, WorkerOk, ListsOk;
    MoverOk(s, m);
    match m
    case Trim(_, num) => TrimIs(s, m); TrimAccounts(s, num, w);
    case FromIdle(d) => FromIdleAccounts(s, d, w);
    case Enter(_, _) => ArrivalAccounts(s, m, w);
    case Append(_, _) => ArrivalAccounts(s, m, w);
    case Pick(_) => CallerAccounts(s, m, w);
    case Lock(_) => CallerAccounts(s, m, w);
    case ToBusy(_) => CallerAccounts(s, m, w);
    case Give(_) => CallerAccounts(s, m, w);
    case Release(_) => CallerAccounts(s, m, w);
    case _ => WorkerAccounts(s, m, w);
  }

  lemma TrimIs<W, J>(s: Pool<W, J>, m: Move<W, J>)
    requires Enabled(s, m) && m.Trim?
    ensures Step(s, m) == DeleteIdle(s, m.num)
  {
  }

  /** In every interleaving: a worker whose mutex is free stands on the busy list once for each job that was
      overwritten at it, and once more if it has a job. If it is still listed, it is on the idle list exactly
      when it has no job, so it is on both lists if and only if it has no job and a job was overwritten at it.
      Where no job was overwritten at all, no free worker is on both lists. */
  lemma ListedExactly<W, J>(workers: seq<W>, ms: seq<Move<W, J>>, w: W)
    requires Distinct(workers) && Possible(Begin(workers), ms)
    ensures var s: Pool<W, J> := Begin(workers);
            var (t, n) := (End(s, ms), OverwrittenAt(s, ms, w));
            && n <= |t.overwritten|
            && (w in t.workers && t.workers[w].owner == Free ==>
              && multiset(t.busy)[w] == n + One(t.workers[w].job.Some?)
              && (w in t.threads ==>
                    && (w in t.idle <==> t.workers[w].job.None?)
                    && (w in t.idle && w in t.busy <==> t.workers[w].job.None? && n > 0)))
  {
    hide Enabled, Step, Inv, Counted, Accounted, Possible, End, OverwrittenAt;
    var s: Pool<W, J> := Begin(workers);
    BeginCounts<W, J>(workers, w);
    RunKeeps(s, ms);
    RunCounts(s, ms, w, 0);
    RunAccounts(s, ms, w);
    OverwrittenSomewhere(s, ms, w);
    var t := End(s, ms);
    if w in t.workers && t.workers[w].owner == Free {
      FreeIsListed(t, w, OverwrittenAt(s, ms, w));
    }
  }

  lemma BeginCounts<W, J>(workers: seq<W>, w: W)
    requires Distinct(workers)
    ensures var s: Pool<W, J> := Begin(workers); Inv(s) && Counted(s, w, 0) && Accounted(s, w)
  {
  }

  lemma FreeIsListed<W, J>(t: Pool<W, J>, w: W, n: nat)
    requires Inv(t) && Counted(t, w, n) && Accounted(t, w) && w in t.workers && t.workers[w].owner == Free
    ensures multiset(t.busy)[w] == n + One(t.workers[w].job.Some?)
    ensures w in t.threads ==> (w in t.idle <==> t.workers[w].job.None?)
    ensures w in t.busy <==> multiset(t.busy)[w] > 0
  {
    assert WorkerOk(t, w);
  }

  /** Jobs overwritten at a worker are among those that were overwritten. */
  lemma {:induction false} OverwrittenSomewhere<W, J>(s: Pool<W, J>, ms: seq<Move<W, J>>, w: W)
    requires Inv(s) && Possible(s, ms)
    ensures |s.overwritten| + OverwrittenAt(s, ms, w) <= |End(s, ms).overwritten|
    decreases |ms|
  {
    hide Inv, Enabled;
    if ms == [] {
    } else {
      StepKeeps(s, ms[0]);
      HitOverwrites(s, ms[0], w);
      OverwrittenSomewhere(Step(s, ms[0]), ms[1..], w);
    }
  }

  lemma HitOverwrites<W, J>(s: Pool<W, J>, m: Move<W, J>, w: W)
    requires Enabled(s, m)
    ensures |Step(s, m).overwritten| >= |s.overwritten| + One(Hits(s, m, w))
  {
    if m.Trim? {
      TrimFrame(s, m.num);
    }
  }
}
