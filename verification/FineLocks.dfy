/** The job pool with one step per locked section: any number of callers of `Run` and of workers, in any
    interleaving. Callers and workers compete for the mutex of each worker (`m_WorkMutex`). */
module FineLocks {
  import opened CTypes
  import opened Lists

  /** Who holds a worker's mutex. */
  datatype Owner = Free | Worker | Caller(d: nat)

  /** How far a worker is in a turn of its loop: waiting for a job, woken by one, inside its mutex with the
      job, after running it, after appending itself to the idle list, after leaving the busy list. */
  datatype Stage = Waiting | Woken | Locked | Ran | Pushed | Erased

  datatype Thread<J> = Thread(owner: Owner, stage: Stage, job: Option<J>)

  /** How far a caller is in `Run`; from Picked on it has a worker in hand. */
  datatype Phase = Entered | Picked | Holding | Shown | Moved | Given

  datatype Call<W, J> = Call(job: J, phase: Phase, worker: Option<W>)

  datatype Pool<W(==), J> = Pool(
    threads: seq<W>,
    idle: seq<W>,
    busy: seq<W>,
    workers: map<W, Thread<J>>,
    calls: map<nat, Call<W, J>>,
    executed: seq<J>,
    overwritten: seq<J>,
    dropped: seq<J>)

  datatype Move<W, J> =
    | Enter(d: nat, job: J)
    | Append(d: nat, recruit: W)
    | Pick(d: nat)
    | Lock(d: nat)
    | ToBusy(d: nat)
    | FromIdle(d: nat)
    | Give(d: nat)
    | Release(d: nat)
    | Wake(w: W)
    | Take(w: W)
    | Execute(w: W)
    | ToIdle(w: W)
    | FromBusy(w: W)
    | Trim(w: W, num: nat)
    | Done(w: W)

  ghost predicate At<W, J>(s: Pool<W, J>, d: nat, phase: Phase) {
    d in s.calls && s.calls[d].phase == phase &&
    (phase != Entered ==> s.calls[d].worker.Some? && s.calls[d].worker.value in s.workers)
  }

  ghost predicate In<W, J>(s: Pool<W, J>, w: W, stage: Stage) {
    w in s.workers && s.workers[w].stage == stage
  }

  ghost predicate Enabled<W, J>(s: Pool<W, J>, m: Move<W, J>) {
    match m
    case Enter(d, _) => d !in s.calls
    case Append(d, w) => At(s, d, Entered) && w !in s.workers
    case Pick(d) => At(s, d, Entered)
    case Lock(d) => At(s, d, Picked) && s.workers[s.calls[d].worker.value].owner == Free
    case ToBusy(d) => At(s, d, Holding)
    case FromIdle(d) => At(s, d, Shown)
    case Give(d) => At(s, d, Moved)
    case Release(d) => At(s, d, Given)
    case Wake(w) => In(s, w, Waiting) && s.workers[w].job.Some?
    case Take(w) => In(s, w, Woken) && s.workers[w].owner == Free
    case Execute(w) => In(s, w, Locked) && s.workers[w].job.Some?
    case ToIdle(w) => In(s, w, Ran)
    case FromBusy(w) => In(s, w, Pushed)
    case Trim(w, _) => In(s, w, Erased)
    case Done(w) => In(s, w, Erased)
  }

  /** One turn of the loop of `DeleteIdleThread`; with an empty idle list it leaves the lists alone. */
  function DeleteFront<W, J>(s: Pool<W, J>): Pool<W, J> {
    if s.idle == [] then s else s.(idle := s.idle[1..], threads := Erase(s.threads, s.idle[0]))
  }

  /** `DeleteIdleThread`, a single section. */
  function DeleteIdle<W, J>(s: Pool<W, J>, num: nat): Pool<W, J>
    decreases num
  {
    if num == 0 then s else DeleteIdle(DeleteFront(s), num - 1)
  }

  function Advance<W, J>(s: Pool<W, J>, d: nat, phase: Phase): Pool<W, J>
    requires d in s.calls
  {
    s.(calls := s.calls[d := s.calls[d].(phase := phase)])
  }

  function Set<W, J>(s: Pool<W, J>, w: W, t: Thread<J>): Pool<W, J> {
    s.(workers := s.workers[w := t])
  }

  /** Give: a job that the worker has not run yet is lost. */
  function SetJob<W, J>(s: Pool<W, J>, w: W, j: J): Pool<W, J>
    requires w in s.workers
  {
    var t := s.workers[w];
    Set(s, w, t.(job := Some(j))).(overwritten := if t.job.Some? then s.overwritten + [t.job.value] else s.overwritten)
  }

  ghost function Step<W, J>(s: Pool<W, J>, m: Move<W, J>): Pool<W, J>
    requires Enabled(s, m)
  {
    match m
    case Enter(d, j) => s.(calls := s.calls[d := Call(j, Entered, None)])
    case Append(d, w) =>
      Set(s, w, Thread(Free, Waiting, None)).(idle := s.idle + [w], threads := s.threads + [w])
    case Pick(d) =>
      if s.idle == [] then s.(calls := s.calls - {d}, dropped := s.dropped + [s.calls[d].job])
      else s.(calls := s.calls[d := s.calls[d].(phase := Picked, worker := Some(s.idle[0]))])
    case Lock(d) =>
      var w := s.calls[d].worker.value;
      Set(Advance(s, d, Holding), w, s.workers[w].(owner := Caller(d)))
    case ToBusy(d) => Advance(s, d, Shown).(busy := s.busy + [s.calls[d].worker.value])
    case FromIdle(d) => Advance(s, d, Moved).(idle := Erase(s.idle, s.calls[d].worker.value))
    case Give(d) => SetJob(Advance(s, d, Given), s.calls[d].worker.value, s.calls[d].job)
    case Release(d) =>
      var w := s.calls[d].worker.value;
      Set(s.(calls := s.calls - {d}), w, s.workers[w].(owner := Free))
    case Wake(w) => Set(s, w, s.workers[w].(stage := Woken))
    case Take(w) => Set(s, w, s.workers[w].(stage := Locked, owner := Worker))
    case Execute(w) =>
      Set(s, w, s.workers[w].(stage := Ran, job := None)).(executed := s.executed + [s.workers[w].job.value])
    case ToIdle(w) => Set(s, w, s.workers[w].(stage := Pushed)).(idle := s.idle + [w])
    case FromBusy(w) => Set(s, w, s.workers[w].(stage := Erased)).(busy := Erase(s.busy, w))
    case Trim(w, num) => DeleteIdle(s, num)
    case Done(w) => Set(s, w, s.workers[w].(stage := Waiting, owner := Free))
  }

  // ----- What every interleaving keeps -----

  /** Where a worker is on the lists, by what it does and who holds its mutex. */
  ghost predicate WorkerOk<W, J>(s: Pool<W, J>, w: W)
    requires w in s.workers
  {
    var t := s.workers[w];
    && (w in s.threads ==> w in s.idle || w in s.busy)
    && (t.job.Some? ==> w in s.busy && w !in s.idle)
    && (t.owner == Worker <==> t.stage in {Locked, Ran, Pushed, Erased})
    && (t.stage in {Woken, Locked} ==> t.job.Some?)
    && (t.stage in {Ran, Pushed, Erased} ==> t.job.None?)
    && (t.stage == Ran ==> w in s.busy && w !in s.idle)
    && (t.stage == Pushed ==> w in s.idle || w !in s.threads)
  }

  ghost predicate CallOk<W, J>(s: Pool<W, J>, d: nat)
    requires d in s.calls
  {
    var c := s.calls[d];
    c.phase != Entered ==>
      && c.worker.Some? && c.worker.value in s.workers
      && (c.phase != Picked ==> s.workers[c.worker.value].owner == Caller(d))
      && (c.phase in {Shown, Moved, Given} ==> c.worker.value in s.busy)
      && (c.phase in {Moved, Given} ==> c.worker.value !in s.idle)
  }

  ghost predicate ListsOk<W, J>(s: Pool<W, J>) {
    && Distinct(s.threads) && Distinct(s.idle)
    && (forall i :: 0 <= i < |s.threads| ==> s.threads[i] in s.workers)
    && (forall i :: 0 <= i < |s.idle| ==> s.idle[i] in s.workers)
    && (forall i :: 0 <= i < |s.busy| ==> s.busy[i] in s.workers)
  }

  ghost predicate Inv<W, J>(s: Pool<W, J>) {
    && ListsOk(s)
    && (forall w :: w in s.workers ==> WorkerOk(s, w))
    && (forall d :: d in s.calls ==> CallOk(s, d))
  }

  lemma DeleteFrontLists<W, J>(s: Pool<W, J>)
    requires ListsOk(s) && s.idle != []
    ensures var t := DeleteFront(s);
            && ListsOk(t) && s.idle[0] !in t.idle && s.idle[0] !in t.threads
            && s.idle == [s.idle[0]] + t.idle
            && (forall w :: w in s.workers && w in t.threads ==> w in s.threads)
  {
    EraseKeepsDistinct(s.threads, s.idle[0]);
  }

  lemma DeleteFrontKeeps<W, J>(s: Pool<W, J>)
    requires Inv(s)
    ensures Inv(DeleteFront(s))
  {
    hide ListsOk, Erase;
    if s.idle != [] {
      DeleteFrontLists(s);
    }
  }

  lemma {:induction false} DeleteIdleKeeps<W, J>(s: Pool<W, J>, num: nat)
    requires Inv(s)
    ensures Inv(DeleteIdle(s, num))
    decreases num
  {
    if num == 0 {
    } else {
      DeleteFrontKeeps(s);
      DeleteIdleKeeps(DeleteFront(s), num - 1);
    }
  }

  lemma EnterKeeps<W, J>(s: Pool<W, J>, m: Move<W, J>)
    requires Inv(s) && Enabled(s, m) && m.Enter?
    ensures Inv(Step(s, m))
  {
  }

  lemma AppendKeeps<W, J>(s: Pool<W, J>, m: Move<W, J>)
    requires Inv(s) && Enabled(s, m) && m.Append?
    ensures Inv(Step(s, m))
  {
  }

  lemma PickKeeps<W, J>(s: Pool<W, J>, d: nat)
    requires Inv(s) && Enabled(s, Pick(d))
    ensures Inv(Step(s, Pick(d)))
  {
  }

  lemma LockKeeps<W, J>(s: Pool<W, J>, d: nat)
    requires Inv(s) && Enabled(s, Lock(d))
    ensures Inv(Step(s, Lock(d)))
  {
  }

  lemma ToBusyKeeps<W, J>(s: Pool<W, J>, d: nat)
    requires Inv(s) && Enabled(s, ToBusy(d))
    ensures Inv(Step(s, ToBusy(d)))
  {
  }

  lemma FromIdleKeeps<W, J>(s: Pool<W, J>, d: nat)
    requires Inv(s) && Enabled(s, FromIdle(d))
    ensures Inv(Step(s, FromIdle(d)))
  {
    EraseKeepsDistinct(s.idle, s.calls[d].worker.value);
  }

  lemma GiveKeeps<W, J>(s: Pool<W, J>, d: nat)
    requires Inv(s) && Enabled(s, Give(d))
    ensures Inv(Step(s, Give(d)))
  {
  }

  lemma ReleaseKeeps<W, J>(s: Pool<W, J>, d: nat)
    requires Inv(s) && Enabled(s, Release(d))
    ensures Inv(Step(s, Release(d)))
  {
  }

  lemma RunningKeeps<W, J>(s: Pool<W, J>, m: Move<W, J>)
    requires Inv(s) && Enabled(s, m) && (m.Wake? || m.Take? || m.Execute? || m.Done?)
    ensures Inv(Step(s, m))
  {
  }

  lemma ToIdleKeeps<W, J>(s: Pool<W, J>, w: W)
    requires Inv(s) && Enabled(s, ToIdle(w))
    ensures Inv(Step(s, ToIdle(w)))
  {
  }

  lemma FromBusyKeeps<W, J>(s: Pool<W, J>, w: W)
    requires Inv(s) && Enabled(s, FromBusy(w))
    ensures Inv(Step(s, FromBusy(w)))
  {
    EraseElements(s.busy, w);
  }

  lemma StepKeeps<W, J>(s: Pool<W, J>, m: Move<W, J>)
    requires Inv(s) && Enabled(s, m)
    ensures Inv(Step(s, m))
  {
    hide *;
    match m
    case Enter(_, _) => EnterKeeps(s, m);
    case Append(_, _) => AppendKeeps(s, m);
    case Pick(d) => PickKeeps(s, d);
    case Lock(d) => LockKeeps(s, d);
    case ToBusy(d) => ToBusyKeeps(s, d);
    case FromIdle(d) => FromIdleKeeps(s, d);
    case Give(d) => GiveKeeps(s, d);
    case Release(d) => ReleaseKeeps(s, d);
    case Wake(_) => RunningKeeps(s, m);
    case Take(_) => RunningKeeps(s, m);
    case Execute(_) => RunningKeeps(s, m);
    case ToIdle(w) => ToIdleKeeps(s, w);
    case FromBusy(w) => FromBusyKeeps(s, w);
    case Trim(_, num) => TrimKeeps(s, m);
    case Done(_) => RunningKeeps(s, m);
  }

  lemma TrimKeeps<W, J>(s: Pool<W, J>, m: Move<W, J>)
    requires Inv(s) && Enabled(s, m) && m.Trim?
    ensures Inv(Step(s, m))
  {
    hide Inv;
    DeleteIdleKeeps(s, m.num);
  }

  // ----- Runs -----

  /** The pool as its constructor leaves it. */
  function Begin<W, J>(workers: seq<W>): Pool<W, J> {
    Pool(workers, workers, [], map w | w in workers :: Thread(Free, Waiting, None), map[], [], [], [])
  }

  ghost predicate Possible<W, J>(s: Pool<W, J>, ms: seq<Move<W, J>>)
    decreases |ms|
  {
    ms == [] || (Enabled(s, ms[0]) && Possible(Step(s, ms[0]), ms[1..]))
  }

  ghost function End<W, J>(s: Pool<W, J>, ms: seq<Move<W, J>>): Pool<W, J>
    requires Possible(s, ms)
    decreases |ms|
  {
    if ms == [] then s else End(Step(s, ms[0]), ms[1..])
  }

  lemma {:induction false} RunKeeps<W, J>(s: Pool<W, J>, ms: seq<Move<W, J>>)
    requires Inv(s) && Possible(s, ms)
    ensures Inv(End(s, ms))
    decreases |ms|
  {
    hide Inv, Enabled, Step;
    if ms == [] {
    } else {
      StepKeeps(s, ms[0]);
      RunKeeps(Step(s, ms[0]), ms[1..]);
    }
  }

  /** In every interleaving: a listed worker is on the idle list or on the busy list, and a worker that has
      been given a job is on the busy list and not on the idle list, where a trim could take it, until it
      has run the job. */
  lemma NeverLost<W, J>(workers: seq<W>, ms: seq<Move<W, J>>)
    requires Distinct(workers) && Possible(Begin(workers), ms)
    ensures var t := End(Begin(workers), ms);
            && (forall i :: 0 <= i < |t.threads| ==> t.threads[i] in t.idle || t.threads[i] in t.busy)
            && (forall w :: w in t.workers && t.workers[w].job.Some? ==> w in t.busy && w !in t.idle)
            && (forall w :: w in t.workers && t.workers[w].stage == Ran ==> w in t.busy && w !in t.idle)
  {
    RunKeeps(Begin(workers), ms);
  }

  // ----- Every job, exactly once -----

  /** The calls that have not handed over job j yet. */
  ghost function InHand<W, J>(s: Pool<W, J>, j: J): set<nat> {
    set d | d in s.calls && s.calls[d].job == j && s.calls[d].phase != Given
  }

  /** The workers that have job j to run. */
  ghost function Pending<W, J>(s: Pool<W, J>, j: J): set<W> {
    set w | w in s.workers && s.workers[w].job == Some(j)
  }

  ghost function Fates<W, J>(s: Pool<W, J>, j: J): nat {
    multiset(s.executed)[j] + multiset(s.overwritten)[j] + multiset(s.dropped)[j]
    + |InHand(s, j)| + |Pending(s, j)|
  }

  ghost function Entries<W, J>(ms: seq<Move<W, J>>, j: J): nat
    decreases |ms|
  {
    if ms == [] then 0 else (if ms[0].Enter? && ms[0].job == j then 1 else 0) + Entries(ms[1..], j)
  }

  lemma EnterHand<W, J>(s: Pool<W, J>, d: nat, job: J, j: J)
    requires d !in s.calls
    ensures InHand(s.(calls := s.calls[d := Call(job, Entered, None)]), j) ==
            InHand(s, j) + if job == j then {d} else {}
  {
    var t := s.(calls := s.calls[d := Call(job, Entered, None)]);
    if job == j {
      assert InHand(t, j) == InHand(s, j) + {d};
    } else {
      assert InHand(t, j) == InHand(s, j);
    }
  }

  lemma EnterFate<W, J>(s: Pool<W, J>, d: nat, job: J, j: J)
    requires Enabled(s, Enter(d, job))
    ensures Fates(Step(s, Enter(d, job)), j) == Fates(s, j) + if job == j then 1 else 0
  {
    hide InHand;
    EnterHand(s, d, job, j);
    NotEntered(s, d, j);
    assert Pending(Step(s, Enter(d, job)), j) == Pending(s, j);
  }

  lemma NotEntered<W, J>(s: Pool<W, J>, d: nat, j: J)
    requires d !in s.calls
    ensures d !in InHand(s, j)
  {
  }

  lemma PickFate<W, J>(s: Pool<W, J>, d: nat, j: J)
    requires Enabled(s, Pick(d))
    ensures Fates(Step(s, Pick(d)), j) == Fates(s, j)
  {
    var t := Step(s, Pick(d));
    assert Pending(t, j) == Pending(s, j);
    if s.idle == [] {
      assert InHand(t, j) == InHand(s, j) - {d};
    } else {
      assert InHand(t, j) == InHand(s, j);
    }
  }

  lemma GiveSets<W, J>(s: Pool<W, J>, d: nat, j: J)
    requires Enabled(s, Give(d))
    ensures var t, w, given := Step(s, Give(d)), s.calls[d].worker.value, s.calls[d].job == j;
            && InHand(t, j) == InHand(s, j) - {d}
            && Pending(t, j) == (if given then Pending(s, j) + {w} else Pending(s, j) - {w})
            && (d in InHand(s, j) <==> given)
            && (w in Pending(s, j) <==> s.workers[w].job == Some(j))
  {
  }

  lemma GiveFate<W, J>(s: Pool<W, J>, d: nat, j: J)
    requires Enabled(s, Give(d))
    ensures Fates(Step(s, Give(d)), j) == Fates(s, j)
  {
    hide InHand, Pending;
    GiveSets(s, d, j);
  }

  lemma ExecuteFate<W, J>(s: Pool<W, J>, w: W, j: J)
    requires Enabled(s, Execute(w))
    ensures Fates(Step(s, Execute(w)), j) == Fates(s, j)
  {
    var t := Step(s, Execute(w));
    assert InHand(t, j) == InHand(s, j);
    assert Pending(t, j) == Pending(s, j) - {w};
  }

  /** The other moves leave every job where it is. */
  lemma CallerFate<W, J>(s: Pool<W, J>, m: Move<W, J>, j: J)
    requires Enabled(s, m) && (m.Append? || m.Lock? || m.ToBusy? || m.FromIdle?)
    ensures Fates(Step(s, m), j) == Fates(s, j)
  {
    var t := Step(s, m);
    assert InHand(t, j) == InHand(s, j);
    assert Pending(t, j) == Pending(s, j);
  }

  lemma LeavingFate<W, J>(s: Pool<W, J>, m: Move<W, J>, j: J)
    requires Enabled(s, m) && (m.Release? || m.Wake? || m.Take? || m.ToIdle? || m.FromBusy? || m.Done?)
    ensures Fates(Step(s, m), j) == Fates(s, j)
  {
    var t := Step(s, m);
    assert InHand(t, j) == InHand(s, j);
    assert Pending(t, j) == Pending(s, j);
  }

  lemma TrimFate<W, J>(s: Pool<W, J>, m: Move<W, J>, j: J)
    requires Enabled(s, m) && m.Trim?
    ensures Fates(Step(s, m), j) == Fates(s, j)
  {
    TrimFrame(s, m.num);
  }

  lemma FateStep<W, J>(s: Pool<W, J>, m: Move<W, J>, j: J)
    requires Enabled(s, m)
    ensures Fates(Step(s, m), j) == Fates(s, j) + if m.Enter? && m.job == j then 1 else 0
  {
    hide *;
    match m
    case Enter(d, job) => EnterFate(s, d, job, j);
    case Pick(d) => PickFate(s, d, j);
    case Give(d) => GiveFate(s, d, j);
    case Execute(w) => ExecuteFate(s, w, j);
    case Append(_, _) => CallerFate(s, m, j);
    case Lock(_) => CallerFate(s, m, j);
    case ToBusy(_) => CallerFate(s, m, j);
    case FromIdle(_) => CallerFate(s, m, j);
    case Trim(_, _) => TrimFate(s, m, j);
    case _ => LeavingFate(s, m, j);
  }

  lemma {:induction false} TrimFrame<W, J>(s: Pool<W, J>, num: nat)
    ensures var t := DeleteIdle(s, num); t == s.(idle := t.idle, threads := t.threads)
    decreases num
  {
    if num == 0 {
    } else {
      TrimFrame(DeleteFront(s), num - 1);
    }
  }

  /** Conservation, in every interleaving: each time a job was handed to `Run` it is still in the hand of the
      caller, or waits at one worker, or was executed once, or was overwritten by another caller before its
      worker ran it, or was dropped because the idle list was emptied under the caller. */
  lemma {:induction false} JobsAccountedFor<W, J>(s: Pool<W, J>, ms: seq<Move<W, J>>, j: J)
    requires Possible(s, ms)
    ensures Fates(End(s, ms), j) == Fates(s, j) + Entries(ms, j)
    decreases |ms|
  {
    hide Enabled, Step, Fates;
    if ms == [] {
    } else {
      FateStep(s, ms[0], j);
      JobsAccountedFor(Step(s, ms[0]), ms[1..], j);
    }
  }

  // ----- Exactly when a job is overwritten -----

  /** The job that the worker in the hand of a caller has, if any. */
  ghost function JobInHand<W, J>(s: Pool<W, J>, d: nat): Option<J>
    requires d in s.calls
  {
    var w := s.calls[d].worker;
    if w.Some? && w.value in s.workers then s.workers[w.value].job else None
  }

  /** The jobs that callers found when they locked their workers, for the callers that found one. */
  ghost predicate Noted<W, J>(s: Pool<W, J>, found: map<nat, J>) {
    forall d :: d in s.calls && s.calls[d].phase in {Holding, Shown, Moved} ==>
      JobInHand(s, d) == if d in found then Some(found[d]) else None
  }

  /** What a caller can see when it has locked its worker. */
  ghost function Note<W, J>(s: Pool<W, J>, m: Move<W, J>, found: map<nat, J>): map<nat, J>
    requires Enabled(s, m)
  {
    match m
    case Lock(d) =>
      if JobInHand(s, d).Some? then found[d := JobInHand(s, d).value] else found - {d}
    case _ => found
  }

  /** The job of a worker whose mutex a caller holds stays as the caller found it, whatever the others do,
      until the caller gives its own. */
  lemma HeldJobStays<W, J>(s: Pool<W, J>, m: Move<W, J>, d: nat)
    requires Inv(s) && Enabled(s, m) && d in s.calls && s.calls[d].phase in {Holding, Shown, Moved} && m != Give(d)
    ensures var w, t := s.calls[d].worker.value, Step(s, m);
            && w in s.workers && w in t.workers && t.workers[w].job == s.workers[w].job
            && d in t.calls && t.calls[d].worker == s.calls[d].worker && t.calls[d].phase in {Holding, Shown, Moved}
  {
    hide Inv;
    HeldFacts(s, m, d);
    if m.Trim? {
      TrimFrame(s, m.num);
    }
  }

  /** The mutex of d's worker is not held by the caller or the worker that moves. */
  lemma HeldFacts<W, J>(s: Pool<W, J>, m: Move<W, J>, d: nat)
    requires Inv(s) && d in s.calls
    ensures CallOk(s, d) && (m.Give? && m.d in s.calls ==> CallOk(s, m.d))
    ensures m.Execute? && m.w in s.workers ==> WorkerOk(s, m.w)
  {
  }

  lemma NoteGive<W, J>(s: Pool<W, J>, d: nat, found: map<nat, J>)
    requires Inv(s) && Enabled(s, Give(d)) && Noted(s, found)
    ensures Noted(Step(s, Give(d)), found)
    ensures Step(s, Give(d)).overwritten == if d in found then s.overwritten + [found[d]] else s.overwritten
  {
    var t, w := Step(s, Give(d)), s.calls[d].worker.value;
    assert CallOk(s, d);
    forall e | e in t.calls && t.calls[e].phase in {Holding, Shown, Moved}
      ensures e != d && s.calls[e] == t.calls[e] && t.calls[e].worker.value != w
    {
      assert CallOk(s, e);
    }
  }

  lemma NoteStep<W, J>(s: Pool<W, J>, m: Move<W, J>, found: map<nat, J>)
    requires Inv(s) && Enabled(s, m) && Noted(s, found) && !m.Give?
    ensures Noted(Step(s, m), Note(s, m, found)) && Step(s, m).overwritten == s.overwritten
  {
    hide Inv;
    var t := Step(s, m);
    if m.Trim? {
      TrimFrame(s, m.num);
    }
    forall e | e in t.calls && t.calls[e].phase in {Holding, Shown, Moved}
      ensures var found' := Note(s, m, found);
              JobInHand(t, e) == if e in found' then Some(found'[e]) else None
    {
      if e in s.calls && s.calls[e].phase in {Holding, Shown, Moved} {
        HeldJobStays(s, m, e);
      } else {
        assert m == Lock(e);
      }
    }
  }

  /** What the callers have found after the first k moves of a run. */
  ghost function FoundAt<W, J>(s: Pool<W, J>, ms: seq<Move<W, J>>, k: nat, found: map<nat, J>): map<nat, J>
    requires Possible(s, ms) && k <= |ms|
    decreases |ms|
  {
    if k == 0 then found else FoundAt(Step(s, ms[0]), ms[1..], k - 1, Note(s, ms[0], found))
  }

  /** The jobs found by the callers that then gave their own. */
  ghost function Displaced<W, J>(s: Pool<W, J>, ms: seq<Move<W, J>>, found: map<nat, J>): seq<J>
    requires Possible(s, ms)
    decreases |ms|
  {
    if ms == [] then []
    else
      var rest := Displaced(Step(s, ms[0]), ms[1..], Note(s, ms[0], found));
      if ms[0].Give? && ms[0].d in found then [found[ms[0].d]] + rest else rest
  }

  lemma {:induction false} OverwrittenAreDisplaced<W, J>(s: Pool<W, J>, ms: seq<Move<W, J>>, found: map<nat, J>)
    requires Inv(s) && Possible(s, ms) && Noted(s, found)
    ensures End(s, ms).overwritten == s.overwritten + Displaced(s, ms, found)
    decreases |ms|
  {
    hide Inv, Enabled, Step, Noted;
    if ms == [] {
      assert s.overwritten + [] == s.overwritten;
    } else {
      var m, t := ms[0], Step(s, ms[0]);
      StepKeeps(s, m);
      if m.Give? {
        NoteGive(s, m.d, found);
      } else {
        NoteStep(s, m, found);
      }
      var found' := Note(s, m, found);
      OverwrittenAreDisplaced(t, ms[1..], found');
      var rest := Displaced(t, ms[1..], found');
      if m.Give? && m.d in found {
        JoinThree(s.overwritten, [found[m.d]], rest);
      }
    }
  }

  lemma JoinThree<T>(a: seq<T>, b: seq<T>, c: seq<T>)
    ensures (a + b) + c == a + (b + c)
  {
  }

  lemma {:induction false} DisplacedNone<W, J>(s: Pool<W, J>, ms: seq<Move<W, J>>, found: map<nat, J>)
    requires Possible(s, ms)
    ensures Displaced(s, ms, found) == [] <==>
            forall k :: 0 <= k < |ms| && ms[k].Give? ==> ms[k].d !in FoundAt(s, ms, k, found)
    decreases |ms|
  {
    hide Enabled, Step, Note;
    if ms == [] {
    } else {
      var t, rest, found' := Step(s, ms[0]), ms[1..], Note(s, ms[0], found);
      DisplacedNone(t, rest, found');
      assert FoundAt(s, ms, 0, found) == found;
      assert forall k :: 1 <= k < |ms| ==> ms[k] == rest[k - 1] && FoundAt(s, ms, k, found) == FoundAt(t, rest, k - 1, found');
      assert forall k :: 0 <= k < |rest| ==> rest[k] == ms[k + 1] && FoundAt(t, rest, k, found') == FoundAt(s, ms, k + 1, found);
    }
  }

  /** Exactly when a job is lost: in any interleaving the overwritten jobs are those that callers found at
      their workers when they had locked them, and then gave their own; none is overwritten if and only if
      no caller does so. A caller can see at the lock whether it will overwrite. */
  lemma OverwrittenExactly<W, J>(workers: seq<W>, ms: seq<Move<W, J>>)
    requires Distinct(workers) && Possible(Begin(workers), ms)
    ensures var s: Pool<W, J> := Begin(workers);
            && End(s, ms).overwritten == Displaced(s, ms, map[])
            && (End(s, ms).overwritten == [] <==>
                  forall k :: 0 <= k < |ms| && ms[k].Give? ==> ms[k].d !in FoundAt(s, ms, k, map[]))
  {
    hide Inv, Enabled, Step, Noted, Displaced, FoundAt, Possible, End;
    var s: Pool<W, J> := Begin(workers);
    BeginNoted<W, J>(workers);
    OverwrittenAreDisplaced(s, ms, map[]);
    DisplacedNone(s, ms, map[]);
    assert [] + Displaced(s, ms, map[]) == Displaced(s, ms, map[]);
  }

  lemma BeginNoted<W, J>(workers: seq<W>)
    requires Distinct(workers)
    ensures Inv<W, J>(Begin(workers)) && Noted<W, J>(Begin(workers), map[])
  {
  }

  // ----- Calls one at a time -----

  /** `Run` is entered only when no other caller is inside; workers and trims go on in any interleaving. */
  ghost predicate Serial<W, J>(s: Pool<W, J>, ms: seq<Move<W, J>>)
    requires Possible(s, ms)
    decreases |ms|
  {
    ms == [] || ((ms[0].Enter? ==> s.calls == map[]) && Serial(Step(s, ms[0]), ms[1..]))
  }

  /** The worker in the hand of a caller between its two list updates, or after them. */
  ghost predicate OnTheWay<W, J>(s: Pool<W, J>, w: W) {
    exists d :: d in s.calls && s.calls[d].phase in {Shown, Moved} && s.calls[d].worker == Some(w)
  }

  /** With one call at a time, the caller's worker has no job yet, and a worker is on the busy list exactly
      while it is on the way to a job, has one, or has not yet left the list after it. */
  ghost predicate SerialInv<W, J>(s: Pool<W, J>) {
    && Inv(s) && Distinct(s.busy) && s.overwritten == []
    && (forall d, e :: d in s.calls && e in s.calls ==> d == e)
    && (forall d :: d in s.calls && s.calls[d].phase in {Picked, Holding, Shown, Moved} ==>
                      s.workers[s.calls[d].worker.value].job.None?)
    && (forall w :: w in s.workers ==>
          (w in s.busy <==> s.workers[w].job.Some? || s.workers[w].stage in {Ran, Pushed} || OnTheWay(s, w)))
  }

  lemma EnterSerial<W, J>(s: Pool<W, J>, m: Move<W, J>)
    requires SerialInv(s) && Enabled(s, m) && m.Enter? && s.calls == map[]
    ensures SerialInv(Step(s, m))
  {
    StepKeeps(s, m);
    hide Inv, Distinct;
    assert forall w :: w in s.workers ==> !OnTheWay(s, w) && !OnTheWay(Step(s, m), w);
  }

  /** The phase of the one caller decides which worker is on the way. */
  lemma OneCall<W, J>(s: Pool<W, J>, d: nat)
    requires d in s.calls && forall e :: e in s.calls ==> e == d
    ensures forall w :: w in s.workers ==>
              (OnTheWay(s, w) <==> s.calls[d].phase in {Shown, Moved} && s.calls[d].worker == Some(w))
  {
  }

  lemma NoCall<W, J>(s: Pool<W, J>)
    requires s.calls == map[]
    ensures forall w :: w in s.workers ==> !OnTheWay(s, w)
  {
  }

  lemma SameCalls<W, J>(s: Pool<W, J>, t: Pool<W, J>)
    requires s.calls == t.calls
    ensures forall w :: w in s.workers ==> (OnTheWay(s, w) <==> OnTheWay(t, w))
  {
  }

  lemma PickSerial<W, J>(s: Pool<W, J>, m: Move<W, J>)
    requires SerialInv(s) && Enabled(s, m) && m.Pick?
    ensures SerialInv(Step(s, m))
  {
    hide OnTheWay;
    var t := Step(s, m);
    StepKeeps(s, m);
    OneCall(s, m.d);
    if s.idle == [] {
      NoCall(t);
    } else {
      OneCall(t, m.d);
    }
  }

  /** The sections of a call that stays inside. */
  lemma CallSerial<W, J>(s: Pool<W, J>, m: Move<W, J>)
    requires SerialInv(s) && Enabled(s, m) && (m.Append? || m.Lock? || m.ToBusy? || m.FromIdle? || m.Give?)
    ensures SerialInv(Step(s, m))
  {
    hide OnTheWay;
    var t := Step(s, m);
    StepKeeps(s, m);
    OneCall(s, m.d);
    OneCall(t, m.d);
  }

  lemma ReleaseSerial<W, J>(s: Pool<W, J>, m: Move<W, J>)
    requires SerialInv(s) && Enabled(s, m) && m.Release?
    ensures SerialInv(Step(s, m))
  {
    hide OnTheWay;
    StepKeeps(s, m);
    OneCall(s, m.d);
    NoCall(Step(s, m));
  }

  /** The sections of a worker that leave the busy list alone. */
  lemma WorkerSerial<W, J>(s: Pool<W, J>, m: Move<W, J>)
    requires SerialInv(s) && Enabled(s, m) && (m.Wake? || m.Take? || m.Execute? || m.ToIdle? || m.Trim? || m.Done?)
    ensures SerialInv(Step(s, m))
  {
    hide OnTheWay;
    StepKeeps(s, m);
    if m.Trim? {
      TrimFrame(s, m.num);
    }
    SameCalls(s, Step(s, m));
  }

  lemma FromBusySerial<W, J>(s: Pool<W, J>, m: Move<W, J>)
    requires SerialInv(s) && Enabled(s, m) && m.FromBusy?
    ensures SerialInv(Step(s, m))
  {
    hide OnTheWay;
    var t := Step(s, m);
    StepKeeps(s, m);
    EraseKeepsDistinct(s.busy, m.w);
    forall w | w in s.workers
      ensures w in t.busy <==> w in s.busy && w != m.w
    {
      EraseElements(s.busy, m.w);
    }
    SameCalls(s, t);
    NotOnTheWay(s, m.w);
  }

  /** A worker that holds its own mutex is not on the way. */
  lemma NotOnTheWay<W, J>(s: Pool<W, J>, w: W)
    requires Inv(s) && w in s.workers && s.workers[w].owner == Worker
    ensures !OnTheWay(s, w)
  {
  }

  lemma SerialStep<W, J>(s: Pool<W, J>, m: Move<W, J>)
    requires SerialInv(s) && Enabled(s, m) && (m.Enter? ==> s.calls == map[])
    ensures SerialInv(Step(s, m))
  {
    hide *;
    match m
    case Enter(_, _) => EnterSerial(s, m);
    case Append(_, _) => CallSerial(s, m);
    case Pick(_) => PickSerial(s, m);
    case Lock(_) => CallSerial(s, m);
    case ToBusy(_) => CallSerial(s, m);
    case FromIdle(_) => CallSerial(s, m);
    case Give(_) => CallSerial(s, m);
    case Release(_) => ReleaseSerial(s, m);
    case Wake(_) => WorkerSerial(s, m);
    case Take(_) => WorkerSerial(s, m);
    case Execute(_) => WorkerSerial(s, m);
    case ToIdle(_) => WorkerSerial(s, m);
    case FromBusy(_) => FromBusySerial(s, m);
    case Trim(_, _) => WorkerSerial(s, m);
    case Done(_) => WorkerSerial(s, m);
  }

  lemma {:induction false} SerialKeeps<W, J>(s: Pool<W, J>, ms: seq<Move<W, J>>)
    requires SerialInv(s) && Possible(s, ms) && Serial(s, ms)
    ensures SerialInv(End(s, ms))
    decreases |ms|
  {
    hide SerialInv, Enabled, Step;
    if ms == [] {
    } else {
      SerialStep(s, ms[0]);
      SerialKeeps(Step(s, ms[0]), ms[1..]);
    }
  }

  /** Calls of `Run` one at a time, workers and trims in any interleaving: no job is overwritten, and a
      worker whose mutex is free is on the busy list, once, exactly when it has a job, and if it is still
      listed it is on the idle list exactly when it has none. */
  lemma OneCallAtATime<W, J>(workers: seq<W>, ms: seq<Move<W, J>>, j: J)
    requires Distinct(workers) && Possible(Begin(workers), ms) && Serial(Begin(workers), ms)
    ensures var t := End(Begin(workers), ms);
            && t.overwritten == [] && Distinct(t.idle) && Distinct(t.busy)
            && (forall w :: w in t.workers && t.workers[w].owner == Free ==>
                              && (w in t.busy <==> t.workers[w].job.Some?)
                              && (w in t.threads ==> (w in t.idle <==> t.workers[w].job.None?)))
            && multiset(t.executed)[j] + multiset(t.dropped)[j] + |InHand(t, j)| + |Pending(t, j)| == Entries(ms, j)
  {
    var s: Pool<W, J> := Begin(workers);
    BeginIsSerial<W, J>(workers);
    SerialKeeps(s, ms);
    JobsAccountedFor(s, ms, j);
    NoFates<W, J>(workers, j);
    FreeWorkers(End(s, ms));
  }

  lemma BeginIsSerial<W, J>(workers: seq<W>)
    requires Distinct(workers)
    ensures SerialInv<W, J>(Begin(workers))
  {
  }

  lemma NoFates<W, J>(workers: seq<W>, j: J)
    ensures Fates<W, J>(Begin(workers), j) == 0
  {
    assert InHand<W, J>(Begin(workers), j) == {};
    assert Pending<W, J>(Begin(workers), j) == {};
  }

  lemma FreeWorkers<W, J>(t: Pool<W, J>)
    requires SerialInv(t)
    ensures forall w :: w in t.workers && t.workers[w].owner == Free ==>
                          && (w in t.busy <==> t.workers[w].job.Some?)
                          && (w in t.threads ==> (w in t.idle <==> t.workers[w].job.None?))
  {
  }

  // ----- Two calls at once -----

  ghost predicate Leads<W, J>(s: Pool<W, J>, ms: seq<Move<W, J>>, t: Pool<W, J>) {
    Possible(s, ms) && End(s, ms) == t
  }

  lemma OneMove<W, J>(s: Pool<W, J>, m: Move<W, J>)
    requires Enabled(s, m)
    ensures Leads(s, [m], Step(s, m))
  {
    assert [m][1..] == [];
  }

  lemma {:induction false} Then<W, J>(s: Pool<W, J>, a: seq<Move<W, J>>, t: Pool<W, J>, b: seq<Move<W, J>>, u: Pool<W, J>)
    requires Leads(s, a, t) && Leads(t, b, u)
    ensures Leads(s, a + b, u)
    decreases |a|
  {
    hide Enabled, Step;
    if a == [] {
      assert a + b == b;
    } else {
      assert (a + b)[1..] == a[1..] + b;
      Then(Step(s, a[0]), a[1..], t, b, u);
    }
  }

  function Claiming<W, J>(d: nat): seq<Move<W, J>> { [Lock(d)] + ([ToBusy(d)] + [FromIdle(d)]) }

  function Handing<W, J>(d: nat): seq<Move<W, J>> { [Give(d)] + [Release(d)] }

  /** The pool after the caller locked the worker it had picked and moved it to the busy list. */
  function Claimed<W, J>(s: Pool<W, J>, d: nat, w: W): Pool<W, J>
    requires d in s.calls && w in s.workers
  {
    Set(Advance(s, d, Moved), w, s.workers[w].(owner := Caller(d))).(busy := s.busy + [w], idle := Erase(s.idle, w))
  }

  lemma Claims<W, J>(s: Pool<W, J>, d: nat, w: W)
    requires At(s, d, Picked) && s.calls[d].worker == Some(w) && s.workers[w].owner == Free
    ensures Leads(s, Claiming(d), Claimed(s, d, w))
  {
    hide Leads, Erase;
    var s1 := Step(s, Lock(d));
    var s2 := Step(s1, ToBusy(d));
    OneMove(s, Lock(d));
    OneMove(s1, ToBusy(d));
    OneMove(s2, FromIdle(d));
    assert Step(s2, FromIdle(d)) == Claimed(s, d, w);
    Then(s1, [ToBusy(d)], s2, [FromIdle(d)], Claimed(s, d, w));
    Then(s, [Lock(d)], s1, [ToBusy(d)] + [FromIdle(d)], Claimed(s, d, w));
  }

  /** The pool after the caller gave the worker its job and left. */
  function Handed<W, J>(s: Pool<W, J>, d: nat, w: W): Pool<W, J>
    requires d in s.calls && w in s.workers
  {
    Set(SetJob(s, w, s.calls[d].job), w, Thread(Free, s.workers[w].stage, Some(s.calls[d].job)))
      .(calls := s.calls - {d})
  }

  lemma Hands<W, J>(s: Pool<W, J>, d: nat, w: W)
    requires At(s, d, Moved) && s.calls[d].worker == Some(w)
    ensures Leads(s, Handing(d), Handed(s, d, w))
  {
    hide Leads;
    var s1 := Step(s, Give(d));
    OneMove(s, Give(d));
    OneMove(s1, Release(d));
    var s2, t := Step(s1, Release(d)), Handed(s, d, w);
    assert s2.calls == t.calls;
    assert s2.workers == t.workers;
    assert s2.overwritten == t.overwritten;
    Then(s, [Give(d)], s1, [Release(d)], s2);
  }

  function Working<W, J>(w: W): seq<Move<W, J>> { [Wake(w)] + ([Take(w)] + [Execute(w)]) }

  /** The pool after the worker ran its job, still inside its mutex. */
  function Worked<W, J>(s: Pool<W, J>, w: W): Pool<W, J>
    requires w in s.workers && s.workers[w].job.Some?
  {
    Set(s, w, Thread(Worker, Ran, None)).(executed := s.executed + [s.workers[w].job.value])
  }

  lemma Works<W, J>(s: Pool<W, J>, w: W)
    requires In(s, w, Waiting) && s.workers[w].job.Some? && s.workers[w].owner == Free
    ensures Leads(s, Working(w), Worked(s, w))
  {
    hide Leads, Erase;
    var s1 := Step(s, Wake(w));
    var s2 := Step(s1, Take(w));
    var s3 := Step(s2, Execute(w));
    OneMove(s, Wake(w));
    OneMove(s1, Take(w));
    OneMove(s2, Execute(w));
    assert s3.workers == Worked(s, w).workers;
    Then(s1, [Take(w)], s2, [Execute(w)], s3);
    Then(s, [Wake(w)], s1, [Take(w)] + [Execute(w)], s3);
  }

  /** The pool after the worker went back to the idle list, still inside its mutex. */
  function Back<W, J>(s: Pool<W, J>, w: W): Pool<W, J> {
    Set(s, w, Thread(Worker, Erased, None)).(idle := s.idle + [w], busy := Erase(s.busy, w))
  }

  lemma ComesBack<W, J>(s: Pool<W, J>, w: W)
    requires In(s, w, Ran) && s.workers[w].job.None? && s.workers[w].owner == Worker
    ensures Leads(s, [ToIdle(w)] + [FromBusy(w)], Back(s, w))
  {
    hide Leads, Erase;
    var s1 := Step(s, ToIdle(w));
    var s2 := Step(s1, FromBusy(w));
    OneMove(s, ToIdle(w));
    OneMove(s1, FromBusy(w));
    assert s2.workers == Back(s, w).workers;
    Then(s, [ToIdle(w)], s1, [FromBusy(w)], s2);
  }

  /** The rest of `Run` after the pick, without interruption. */
  function RestOfRun<W, J>(d: nat): seq<Move<W, J>> { Claiming(d) + Handing(d) }

  lemma RunsOn<W, J>(s: Pool<W, J>, d: nat, w: W)
    requires At(s, d, Picked) && s.calls[d].worker == Some(w) && s.workers[w].owner == Free
    ensures Leads(s, RestOfRun(d), Handed(Claimed(s, d, w), d, w))
  {
    hide Leads;
    var t := Claimed(s, d, w);
    Claims(s, d, w);
    Hands(t, d, w);
    Then(s, Claiming(d), t, Handing(d), Handed(t, d, w));
  }

  /** A turn of a worker's loop, without interruption and without a trim. */
  function TurnOf<W, J>(w: W): seq<Move<W, J>> { Working(w) + (([ToIdle(w)] + [FromBusy(w)]) + [Done(w)]) }

  /** The pool after such a turn. */
  function Returned<W, J>(s: Pool<W, J>, w: W): Pool<W, J>
    requires w in s.workers && s.workers[w].job.Some?
  {
    Set(Back(Worked(s, w), w), w, Thread(Free, Waiting, None))
  }

  lemma TurnsOnce<W, J>(s: Pool<W, J>, w: W)
    requires In(s, w, Waiting) && s.workers[w].job.Some? && s.workers[w].owner == Free
    ensures Leads(s, TurnOf(w), Returned(s, w))
  {
    hide Leads, Erase;
    var t := Worked(s, w);
    var u := Back(t, w);
    Works(s, w);
    ComesBack(t, w);
    OneMove(u, Done(w));
    Then(t, [ToIdle(w)] + [FromBusy(w)], u, [Done(w)], Returned(s, w));
    Then(s, Working(w), t, ([ToIdle(w)] + [FromBusy(w)]) + [Done(w)], Returned(s, w));
  }

  /** Two callers that pick before either locks. */
  function Picking(): seq<Move<nat, nat>> {
    [Enter(1, 10)] + ([Enter(2, 20)] + ([Pick(1)] + [Pick(2)]))
  }

  /** The pool with a single worker, 0, that both callers have in hand. */
  function BothPicked(): Pool<nat, nat> {
    Begin([0]).(calls := map[1 := Call(10, Picked, Some(0)), 2 := Call(20, Picked, Some(0))])
  }

  lemma BothPick()
    ensures Leads(Begin([0]), Picking(), BothPicked())
  {
    hide Leads;
    var s: Pool<nat, nat> := Begin([0]);
    var s1 := Step(s, Enter(1, 10));
    var s2 := Step(s1, Enter(2, 20));
    var s3 := Step(s2, Pick(1));
    var s4 := Step(s3, Pick(2));
    OneMove(s, Enter(1, 10));
    OneMove(s1, Enter(2, 20));
    OneMove(s2, Pick(1));
    OneMove(s3, Pick(2));
    assert s4.calls == BothPicked().calls;
    Then(s2, [Pick(1)], s3, [Pick(2)], s4);
    Then(s1, [Enter(2, 20)], s2, [Pick(1)] + [Pick(2)], s4);
    Then(s, [Enter(1, 10)], s1, [Enter(2, 20)] + ([Pick(1)] + [Pick(2)]), s4);
  }

  /** The first caller has handed over its job, the second has the same worker in hand. */
  function FirstGiven(): Pool<nat, nat> {
    Pool([0], [], [0], map[0 := Thread(Free, Waiting, Some(10))], map[2 := Call(20, Picked, Some(0))], [], [], [])
  }

  function BothGiven(): Pool<nat, nat> {
    Pool([0], [], [0, 0], map[0 := Thread(Free, Waiting, Some(20))], map[], [], [10], [])
  }

  function AfterTurn(): Pool<nat, nat> {
    Pool([0], [0], [0], map[0 := Thread(Free, Waiting, None)], map[], [20], [10], [])
  }

  lemma FirstGives()
    ensures Leads(BothPicked(), RestOfRun(1), FirstGiven())
  {
    hide Leads;
    var s := BothPicked();
    var t := Handed(Claimed(s, 1, 0), 1, 0);
    RunsOn(s, 1, 0);
    assert t.calls == FirstGiven().calls && t.workers == FirstGiven().workers;
    assert t.idle == [] && t.busy == [0];
  }

  lemma SecondGives()
    ensures Leads(FirstGiven(), RestOfRun(2), BothGiven())
  {
    hide Leads;
    var s := FirstGiven();
    var t := Handed(Claimed(s, 2, 0), 2, 0);
    RunsOn(s, 2, 0);
    assert t.calls == map[] && t.workers == BothGiven().workers;
    assert t.idle == [] && t.busy == [0, 0] && t.overwritten == [10];
  }

  lemma WorkerTurns()
    ensures Leads(BothGiven(), TurnOf(0), AfterTurn())
  {
    hide Leads;
    var t := Returned(BothGiven(), 0);
    TurnsOnce(BothGiven(), 0);
    assert t.workers == AfterTurn().workers;
    assert t.idle == [0] && t.busy == [0] && t.executed == [20];
  }

  function Race(): seq<Move<nat, nat>> { Picking() + (RestOfRun(1) + (RestOfRun(2) + TurnOf(0))) }

  /** With two calls at once the front worker can be picked twice: the first job is overwritten and never
      runs, and at the end, with every call returned and every mutex free, the worker is on both lists. */
  lemma JobLostInRace()
    ensures Leads(Begin<nat, nat>([0]), Race(),
                  Pool([0], [0], [0], map[0 := Thread(Free, Waiting, None)], map[], [20], [10], []))
  {
    hide Leads, RestOfRun, TurnOf, Picking;
    BothPick();
    FirstGives();
    SecondGives();
    WorkerTurns();
    Then(FirstGiven(), RestOfRun(2), BothGiven(), TurnOf(0), AfterTurn());
    Then(BothPicked(), RestOfRun(1), FirstGiven(), RestOfRun(2) + TurnOf(0), AfterTurn());
    Then(Begin<nat, nat>([0]), Picking(), BothPicked(), RestOfRun(1) + (RestOfRun(2) + TurnOf(0)), AfterTurn());
  }
}
