/** The two machines of the job pool agree: the locked sections of one call of `Run`, or of one turn of a
    worker, carried out in a row from a quiet state make the step of the coarse machine. */
module FineToCoarse {
  import opened CTypes
  import opened Lists
  import opened Pools
  import opened F = FineLocks
  import C = JobPoolSpec

  /** A fine state as a state of the coarse machine. */
  function Coarse<W, J>(s: Pool<W, J>): State<W, J> {
    State(s.threads, s.idle, s.busy, |s.idle|, Jobs(s.workers))
  }

  function Jobs<W, J>(workers: map<W, Thread<J>>): map<W, J> {
    map w | w in workers && workers[w].job.Some? :: workers[w].job.value
  }

  /** No call is inside and no worker is in the middle of a turn. */
  ghost predicate Quiet<W, J>(s: Pool<W, J>) {
    s.calls == map[] && forall w :: w in s.workers ==> s.workers[w].owner == Free && s.workers[w].stage == Waiting
  }

  // ----- A call of Run -----

  function Appends<W, J>(d: nat, recruits: seq<W>): seq<Move<W, J>> {
    if recruits == [] then [] else [Append(d, recruits[0])] + Appends(d, recruits[1..])
  }

  /** The pool with new idle workers. */
  function Grown<W, J>(s: Pool<W, J>, recruits: seq<W>): Pool<W, J>
    decreases |recruits|
  {
    if recruits == [] then s
    else
      var w := recruits[0];
      Grown(Set(s, w, Thread(Free, Waiting, None)).(idle := s.idle + [w], threads := s.threads + [w]), recruits[1..])
  }

  ghost predicate Strangers<W, J>(s: Pool<W, J>, recruits: seq<W>) {
    Distinct(recruits) && forall i :: 0 <= i < |recruits| ==> recruits[i] !in s.workers
  }

  lemma StrangersLeft<W, J>(s: Pool<W, J>, u: Pool<W, J>, recruits: seq<W>)
    requires Strangers(s, recruits) && recruits != [] && u.workers.Keys == s.workers.Keys + {recruits[0]}
    ensures Strangers(u, recruits[1..]) && recruits[0] !in recruits[1..] && recruits[0] !in s.workers
  {
    var rest := recruits[1..];
    assert forall i :: 0 <= i < |rest| ==> rest[i] == recruits[i + 1] != recruits[0];
  }

  lemma {:induction false} GrownLists<W, J>(s: Pool<W, J>, recruits: seq<W>)
    ensures var t := Grown(s, recruits);
            t == s.(idle := s.idle + recruits, threads := s.threads + recruits, workers := t.workers)
    decreases |recruits|
  {
    if recruits == [] {
      assert s.idle + [] == s.idle && s.threads + [] == s.threads;
    } else {
      var w, rest := recruits[0], recruits[1..];
      GrownLists(Set(s, w, Thread(Free, Waiting, None)).(idle := s.idle + [w], threads := s.threads + [w]), rest);
      assert (s.idle + [w]) + rest == s.idle + recruits && (s.threads + [w]) + rest == s.threads + recruits;
    }
  }

  lemma {:induction false} GrownWorkers<W, J>(s: Pool<W, J>, recruits: seq<W>)
    requires Strangers(s, recruits)
    ensures var t := Grown(s, recruits);
            && (forall w :: w in t.workers ==> w in s.workers || w in recruits)
            && (forall w :: w in s.workers ==> w in t.workers && t.workers[w] == s.workers[w])
            && (forall w :: w in recruits ==> w in t.workers && t.workers[w] == Thread(Free, Waiting, None))
    decreases |recruits|
  {
    hide Strangers;
    if recruits == [] {
    } else {
      var w, rest := recruits[0], recruits[1..];
      var u := Set(s, w, Thread(Free, Waiting, None)).(idle := s.idle + [w], threads := s.threads + [w]);
      StrangersLeft(s, u, recruits);
      GrownWorkers(u, rest);
    }
  }

  lemma GrownIs<W, J>(s: Pool<W, J>, recruits: seq<W>)
    requires Strangers(s, recruits)
    ensures var t := Grown(s, recruits);
            && t == s.(idle := s.idle + recruits, threads := s.threads + recruits, workers := t.workers)
            && (forall w :: w in t.workers ==> w in s.workers || w in recruits)
            && (forall w :: w in s.workers ==> w in t.workers && t.workers[w] == s.workers[w])
            && (forall w :: w in recruits ==> w in t.workers && t.workers[w] == Thread(Free, Waiting, None))
  {
    hide Strangers, Grown;
    GrownLists(s, recruits);
    GrownWorkers(s, recruits);
  }

  lemma {:induction false} AppendsLead<W, J>(s: Pool<W, J>, d: nat, recruits: seq<W>)
    requires At(s, d, Entered) && Strangers(s, recruits)
    ensures Leads(s, Appends(d, recruits), Grown(s, recruits))
    decreases |recruits|
  {
    if recruits == [] {
    } else {
      var m := Append(d, recruits[0]);
      var t, rest := Step(s, m), recruits[1..];
      assert forall i :: 0 <= i < |rest| ==> rest[i] == recruits[i + 1] != recruits[0];
      OneMove(s, m);
      AppendsLead(t, d, rest);
      Then(s, [m], t, Appends(d, rest), Grown(t, rest));
    }
  }

  /** `Run` from its entry to its return, with so many workers created. */
  function CallOfRun<W, J>(d: nat, job: J, recruits: seq<W>): seq<Move<W, J>> {
    [Enter(d, job)] + (Appends(d, recruits) + ([Pick(d)] + RestOfRun(d)))
  }

  function Inside<W, J>(s: Pool<W, J>, d: nat, job: J): Pool<W, J> {
    s.(calls := s.calls[d := Call(job, Entered, None)])
  }

  function WithPick<W, J>(s: Pool<W, J>, d: nat, w: W): Pool<W, J>
    requires d in s.calls
  {
    s.(calls := s.calls[d := s.calls[d].(phase := Picked, worker := Some(w))])
  }

  /** The pool after the call. */
  ghost function AfterCall<W, J>(s: Pool<W, J>, d: nat, job: J, recruits: seq<W>): Pool<W, J>
    requires Strangers(s, recruits) && s.idle + recruits != [] && (s.idle != [] ==> s.idle[0] in s.workers)
  {
    GrownIs(Inside(s, d, job), recruits);
    var line := s.idle + recruits;
    var u := WithPick(Grown(Inside(s, d, job), recruits), d, line[0]);
    Handed(Claimed(u, d, line[0]), d, line[0])
  }

  lemma CallLeads<W, J>(s: Pool<W, J>, d: nat, job: J, recruits: seq<W>)
    requires d !in s.calls && Strangers(s, recruits) && s.idle + recruits != []
    requires s.idle != [] ==> s.idle[0] in s.workers && s.workers[s.idle[0]].owner == Free
    ensures Leads(s, CallOfRun(d, job, recruits), AfterCall(s, d, job, recruits))
  {
    hide Leads, RestOfRun, Appends, Handed, Grown, Erase;
    var u := Inside(s, d, job);
    OneMove(s, Enter(d, job));
    AppendsLead(u, d, recruits);
    GrownIs(u, recruits);
    var v, w := Grown(u, recruits), (s.idle + recruits)[0];
    OneMove(v, Pick(d));
    var x := WithPick(v, d, w);
    var t := Handed(Claimed(x, d, w), d, w);
    RunsOn(x, d, w);
    Then(v, [Pick(d)], x, RestOfRun(d), t);
    Then(u, Appends(d, recruits), v, [Pick(d)] + RestOfRun(d), t);
    Then(s, [Enter(d, job)], u, Appends(d, recruits) + ([Pick(d)] + RestOfRun(d)), t);
  }

  /** What the call did to the lists and the workers. */
  lemma CallDoes<W, J>(s: Pool<W, J>, d: nat, job: J, recruits: seq<W>)
    requires d !in s.calls && Strangers(s, recruits) && s.idle + recruits != []
    requires s.idle != [] ==> s.idle[0] in s.workers && s.workers[s.idle[0]] == Thread(Free, Waiting, None)
    ensures var t, line := AfterCall(s, d, job, recruits), s.idle + recruits;
            && t.threads == s.threads + recruits && t.idle == line[1..] && t.busy == s.busy + [line[0]]
            && t.calls == s.calls && t.overwritten == s.overwritten
            && (forall w :: w in t.workers ==> w in s.workers || w in recruits)
            && (forall w :: w in s.workers ==> w in t.workers)
            && line[0] in t.workers && t.workers[line[0]] == Thread(Free, Waiting, Some(job))
            && (forall w :: w in t.workers && w != line[0] ==>
                              t.workers[w] == if w in s.workers then s.workers[w] else Thread(Free, Waiting, None))
  {
    hide Grown;
    GrownIs(Inside(s, d, job), recruits);
    var line, g := s.idle + recruits, Grown(Inside(s, d, job), recruits);
    C.EraseFirst(line);
    var t := AfterCall(s, d, job, recruits);
    assert t.calls == s.calls;
    assert t.workers == g.workers[line[0] := Thread(Free, Waiting, Some(job))];
  }

  /** A call of `Run`, section by section without interruption, is the coarse step Dispatch. */
  lemma DispatchInSections<W, J>(l: C.Limits, s: Pool<W, J>, d: nat, job: J, recruits: seq<W>)
    requires F.Inv(s) && Quiet(s) && C.Inv(l, Coarse(s)) && C.CanDispatch(l, Coarse(s))
    requires |recruits| == C.Growth(l, Coarse(s)) && Strangers(s, recruits)
    ensures s.idle + recruits != [] && (s.idle != [] ==> s.idle[0] in s.workers)
    ensures var t := AfterCall(s, d, job, recruits);
            && Leads(s, CallOfRun(d, job, recruits), t) && Quiet(t) && t.overwritten == s.overwritten
            && Coarse(t) == C.Dispatch(l, Coarse(s), recruits, job)
  {
    hide Leads, CallOfRun, AfterCall, C.Growth, C.CanDispatch, C.Dispatch, C.Inv, F.Inv, Fresh;
    var u, line := Coarse(s), s.idle + recruits;
    FrontIsFree(s);
    StrangersAreFresh(s, recruits);
    C.DispatchStep(l, u, recruits, job);
    CallLeads(s, d, job, recruits);
    CallDoes(s, d, job, recruits);
    var t := AfterCall(s, d, job, recruits);
    assert Jobs(t.workers) == Jobs(s.workers)[line[0] := job];
    CounterIsIdle(l, C.Dispatch(l, u, recruits, job));
  }

  lemma FrontIsFree<W, J>(s: Pool<W, J>)
    requires F.Inv(s) && Quiet(s)
    ensures s.idle != [] ==> s.idle[0] in s.workers && s.workers[s.idle[0]] == Thread(Free, Waiting, None)
  {
    if s.idle != [] {
      assert WorkerOk(s, s.idle[0]);
    }
  }

  lemma StrangersAreFresh<W, J>(s: Pool<W, J>, recruits: seq<W>)
    requires F.Inv(s) && Strangers(s, recruits)
    ensures Fresh(s.threads, recruits)
  {
  }

  lemma CounterIsIdle<W, J>(l: C.Limits, u: State<W, J>)
    requires C.Inv(l, u)
    ensures u.avail == |u.idle|
  {
  }

  // ----- A turn of a worker -----

  /** The trim of a turn that finds so many idle workers. */
  function Trims<W, J>(l: C.Limits, w: W, idle: nat): seq<Move<W, J>>
    requires l.Ok()
  {
    if idle > l.high then [Trim(w, idle - l.init)] else []
  }

  function Trimmed<W, J>(l: C.Limits, s: Pool<W, J>): Pool<W, J>
    requires l.Ok()
  {
    if |s.idle| > l.high then DeleteIdle(s, |s.idle| - l.init) else s
  }

  /** A turn of a worker's loop from the wake-up to the release of its mutex. */
  function WholeTurn<W, J>(l: C.Limits, s: Pool<W, J>, w: W): seq<Move<W, J>>
    requires l.Ok()
  {
    Working(w) + (([ToIdle(w)] + [FromBusy(w)]) + (Trims(l, w, |s.idle| + 1) + [Done(w)]))
  }

  function AfterTurn<W, J>(l: C.Limits, s: Pool<W, J>, w: W): Pool<W, J>
    requires l.Ok() && w in s.workers && s.workers[w].job.Some?
  {
    Set(Trimmed(l, Back(Worked(s, w), w)), w, Thread(Free, Waiting, None))
  }

  lemma TrimsLead<W, J>(l: C.Limits, s: Pool<W, J>, w: W)
    requires l.Ok() && In(s, w, Erased)
    ensures Leads(s, Trims(l, w, |s.idle|), Trimmed(l, s))
    ensures In(Trimmed(l, s), w, Erased) && Trimmed(l, s).workers == s.workers
  {
    if |s.idle| > l.high {
      TrimFrame(s, |s.idle| - l.init);
      OneMove(s, Trim(w, |s.idle| - l.init));
    }
  }

  lemma TurnLeads<W, J>(l: C.Limits, s: Pool<W, J>, w: W)
    requires l.Ok() && In(s, w, Waiting) && s.workers[w].job.Some? && s.workers[w].owner == Free
    ensures Leads(s, WholeTurn(l, s, w), AfterTurn(l, s, w))
  {
    hide Leads, Erase, Working, Trims, Trimmed;
    var t := Worked(s, w);
    var u := Back(t, w);
    var v := Trimmed(l, u);
    Works(s, w);
    ComesBack(t, w);
    TrimsLead(l, u, w);
    OneMove(v, Done(w));
    Then(u, Trims(l, w, |u.idle|), v, [Done(w)], AfterTurn(l, s, w));
    Then(t, [ToIdle(w)] + [FromBusy(w)], u, Trims(l, w, |u.idle|) + [Done(w)], AfterTurn(l, s, w));
    Then(s, Working(w), t, ([ToIdle(w)] + [FromBusy(w)]) + (Trims(l, w, |u.idle|) + [Done(w)]), AfterTurn(l, s, w));
  }

  lemma {:induction false} DeleteSame<W, J>(s: Pool<W, J>, u: State<W, J>, num: nat)
    requires s.idle == u.idle && s.threads == u.threads && num <= |s.idle|
    ensures var t, v := DeleteIdle(s, num), C.Delete(u, num);
            && t.idle == v.idle && t.threads == v.threads && v.busy == u.busy && v.load == u.load
    decreases num
  {
    if num == 0 {
    } else {
      DeleteSame(F.DeleteFront(s), u.(idle := u.idle[1..], threads := Erase(u.threads, u.idle[0]), avail := U32(u.avail - 1)),
                 num - 1);
    }
  }

  /** What the turn did to the lists and the workers. */
  lemma TurnDoes<W, J>(l: C.Limits, s: Pool<W, J>, w: W)
    requires l.Ok() && w in s.workers && s.workers[w].job.Some?
    ensures var t, u := AfterTurn(l, s, w), C.Finish(l, Coarse(s), w);
            && t.threads == u.threads && t.idle == u.idle && t.busy == u.busy && t.calls == s.calls
            && t.workers == s.workers[w := Thread(Free, Waiting, None)]
            && t.executed == s.executed + [s.workers[w].job.value]
  {
    hide Erase;
    var b := Back(Worked(s, w), w);
    var m := MoveToIdle(Coarse(s).(load := Coarse(s).load - {w}), w);
    if |b.idle| > l.high {
      TrimFrame(b, |b.idle| - l.init);
      DeleteSame(b, m, |b.idle| - l.init);
    }
    assert AfterTurn(l, s, w).workers == s.workers[w := Thread(Free, Waiting, None)];
  }

  lemma BusyHasJob<W, J>(l: C.Limits, s: Pool<W, J>, w: W)
    requires C.Inv(l, Coarse(s)) && w in s.busy
    ensures l.Ok() && w in Coarse(s).load
  {
    var i :| 0 <= i < |s.busy| && s.busy[i] == w;
    assert s.busy[i] in Coarse(s).load;
  }

  /** A turn of a worker, section by section without interruption, is the coarse step Finish. */
  lemma FinishInSections<W, J>(l: C.Limits, s: Pool<W, J>, w: W)
    requires F.Inv(s) && Quiet(s) && C.Inv(l, Coarse(s)) && w in s.busy
    ensures l.Ok() && w in s.workers && s.workers[w].job.Some?
    ensures var t := AfterTurn(l, s, w);
            && Leads(s, WholeTurn(l, s, w), t) && Quiet(t)
            && t.executed == s.executed + [s.workers[w].job.value]
            && Coarse(t) == C.Finish(l, Coarse(s), w)
  {
    hide Leads, WholeTurn, AfterTurn, C.Finish, F.Inv, C.Inv, Erase, Partition, Distinct;
    BusyHasJob(l, s, w);
    C.FinishStep(l, Coarse(s), w);
    TurnLeads(l, s, w);
    TurnDoes(l, s, w);
    var t := AfterTurn(l, s, w);
    assert Jobs(t.workers) == Jobs(s.workers) - {w};
    CounterIsIdle(l, C.Finish(l, Coarse(s), w));
  }
}
