/** `CThreadPool` in its role as the pool of job workers, proved against the state machine. */
module JobPool {
  import opened CTypes
  import opened Lists
  import opened Pools
  import opened JobPoolSpec

  class WorkerThread<J> {
    var job: Option<J>

    constructor ()
      ensures job == None
    {
      job := None;
    }
  }

  class ThreadPool<J> {
    const limits: Limits
    var threadList: seq<WorkerThread<J>>
    var busyList: seq<WorkerThread<J>>
    var idleList: seq<WorkerThread<J>>
    var availNum: nat

    /** The pool as a state of the machine. */
    ghost function Abstract(): State<WorkerThread<J>, J>
      reads this, threadList
    {
      State(threadList, idleList, busyList, availNum, JobsOf(threadList))
    }

    /** Erasing a worker without a job from the list of all workers erases no job. */
    static lemma JobsWithout(threads: seq<WorkerThread<J>>, w: WorkerThread<J>)
      requires w.job == None
      ensures JobsOf(Erase(threads, w)) == JobsOf(threads)
    {
      EraseElements(threads, w);
      var rest := Erase(threads, w);
      assert forall v :: v in rest ==> v in threads;
      assert forall v :: v in threads && v != w ==> v in rest;
    }

    static lemma JobsWith(threads: seq<WorkerThread<J>>, w: WorkerThread<J>)
      requires w.job == None
      ensures JobsOf(threads + [w]) == JobsOf(threads)
    {
    }

    lemma IdleHoldNoJob()
      requires Valid()
      ensures forall w :: w in idleList ==> w.job == None
    {
      PartitionFacts(threadList, idleList, busyList);
      forall w | w in idleList
        ensures w.job == None
      {
        assert w in threadList && w !in busyList;
        assert w !in Abstract().load;
      }
    }

    static ghost function JobsOf(threads: seq<WorkerThread<J>>): map<WorkerThread<J>, J>
      reads threads
    {
      map w | w in threads && w.job.Some? :: w.job.value
    }

    ghost predicate Valid()
      reads this, threadList
    {
      Inv(limits, Abstract())
    }

    constructor (limits: Limits)
      requires limits.Ok()
      ensures Valid() && fresh(threadList) && this.limits == limits
      ensures idleList == threadList && |threadList| == limits.init && busyList == []
    {
      this.limits := limits;
      availNum := limits.init;
      threadList, busyList, idleList := [], [], [];
      new;
      var i := 0;
      while i < limits.init
        invariant i <= limits.init && |threadList| == i && idleList == threadList && busyList == [] && availNum == limits.init
        invariant Distinct(threadList) && fresh(threadList)
        invariant forall w :: w in threadList ==> w.job == None
      {
        var w := new WorkerThread<J>();
        AppendToIdleList(w);
        i := i + 1;
      }
      assert Abstract().load == map[];
    }

    method AppendToIdleList(w: WorkerThread<J>)
      modifies this`idleList, this`threadList
      ensures idleList == old(idleList) + [w] && threadList == old(threadList) + [w]
    {
      idleList := idleList + [w];
      threadList := threadList + [w];
    }

    method MoveToBusyList(w: WorkerThread<J>)
      modifies this`busyList, this`availNum, this`idleList
      ensures Abstract() == MoveToBusy(old(Abstract()), w)
    {
      busyList := busyList + [w];
      availNum := U32(availNum - 1);
      idleList := Erase(idleList, w);
    }

    method MoveToIdleList(w: WorkerThread<J>)
      modifies this`busyList, this`availNum, this`idleList
      ensures Abstract() == MoveToIdle(old(Abstract()), w)
    {
      idleList := idleList + [w];
      availNum := U32(availNum + 1);
      busyList := Erase(busyList, w);
    }

    method CreateIdleThread(num: int) returns (ghost recruits: seq<WorkerThread<J>>)
      modifies this`threadList, this`idleList, this`availNum
      ensures |recruits| == (if num > 0 then num else 0) && Distinct(recruits) && fresh(recruits)
      ensures Abstract() == Create(old(Abstract()), recruits)
      ensures threadList == old(threadList) + recruits && forall w :: w in recruits ==> w.job == None
    {
      hide U32;
      recruits := [];
      var i := 0;
      assert threadList == threadList + recruits;
      while i < num
        invariant i == |recruits| <= (if num > 0 then num else 0) && Distinct(recruits) && fresh(recruits)
        invariant forall w :: w in recruits ==> w.job == None
        invariant threadList == old(threadList) + recruits
        invariant Abstract() == Create(old(Abstract()), recruits)
      {
        var w := new WorkerThread<J>();
        JobsWith(threadList, w);
        AppendToIdleList(w);
        availNum := U32(availNum + 1);
        CreateAppend(old(Abstract()), recruits, w);
        recruits := recruits + [w];
        i := i + 1;
      }
    }

    method DeleteIdleThread(num: int)
      requires 0 <= num <= |idleList|
      requires forall w :: w in idleList ==> w.job == None
      modifies this`threadList, this`idleList, this`availNum
      ensures Abstract() == Delete(old(Abstract()), num)
    {
      hide U32, Erase;
      ghost var s := Abstract();
      var i := 0;
      while i < num
        invariant 0 <= i <= num && num - i <= |idleList|
        invariant forall w :: w in idleList ==> w.job == None
        invariant forall w :: w in threadList ==> w in old(threadList)
        invariant Delete(Abstract(), num - i) == Delete(s, num)
      {
        var w := idleList[0];
        ghost var t := Abstract();
        EraseFirst(idleList);
        EraseElements(threadList, w);
        JobsWithout(threadList, w);
        idleList := Erase(idleList, w);
        threadList := Erase(threadList, w);
        availNum := U32(availNum - 1);
        assert JobsOf(threadList) == t.load;
        i := i + 1;
      }
    }

    /** The worker in front; the wait for one is never entered when the list is not empty. */
    method GetIdleThread() returns (w: WorkerThread<J>)
      requires idleList != []
      ensures w == idleList[0]
    {
      w := idleList[0];
    }

    method SetJob(w: WorkerThread<J>, job: J)
      requires w in threadList
      modifies w
      ensures Abstract() == old(Abstract()).(load := old(Abstract()).load[w := job])
    {
      w.job := Some(job);
    }

    /** The worker executes its job and gives it up. */
    method ExecuteJob(w: WorkerThread<J>) returns (executed: J)
      requires w in threadList && w in Abstract().load
      modifies w
      ensures executed == old(Abstract()).load[w]
      ensures Abstract() == old(Abstract()).(load := old(Abstract()).load - {w})
    {
      executed := w.job.value;
      w.job := None;
    }

    /** `Run`. When all workers are busy it waits; the wait ends with the turn of a worker. */
    method Run(job: J, waker: WorkerThread<J>) returns (ghost recruits: seq<WorkerThread<J>>, ghost ready: State<WorkerThread<J>, J>)
      requires Valid() && (CanDispatch(limits, Abstract()) || waker in busyList)
      modifies this, threadList
      ensures Valid() && fresh(recruits)
      ensures limits.Ok() && ready == if CanDispatch(limits, old(Abstract())) then old(Abstract()) else Finish(limits, old(Abstract()), waker)
      ensures Inv(limits, ready) && CanDispatch(limits, ready)
      ensures |recruits| == Growth(limits, ready) && Fresh(ready.threads, recruits)
      ensures Abstract() == Dispatch(limits, ready, recruits, job)
    {
      hide Inv, Finish, Dispatch, Growth, U32, Create;
      InvOk(limits, Abstract());
      if |busyList| == limits.max {
        WakerFrees(limits, Abstract(), waker);
        var executed := WorkerTurn(waker);
      }
      ready := Abstract();
      recruits := HandOver(job);
    }

    /** The rest of `Run`, when some worker is not busy. */
    method HandOver(job: J) returns (ghost recruits: seq<WorkerThread<J>>)
      requires Valid() && CanDispatch(limits, Abstract())
      modifies this, threadList
      ensures Valid() && fresh(recruits)
      ensures |recruits| == Growth(limits, old(Abstract())) && Fresh(old(threadList), recruits)
      ensures Abstract() == Dispatch(limits, old(Abstract()), recruits, job)
    {
      hide U32, U64, Int32, Inv, Create;
      ghost var s := Abstract();
      recruits := [];
      if |idleList| < limits.low {
        if U64(U32(|threadList| + limits.init) - |idleList|) < limits.max {
          recruits := CreateIdleThread(Int32(U64(limits.init - |idleList|)));
        } else {
          recruits := CreateIdleThread(Int32(U32(limits.max - |threadList|)));
        }
      } else {
        NothingCreated(s);
      }
      SomeoneIdle(limits, s, recruits);
      DispatchStep(limits, s, recruits, job);
      FrontIsListed(limits, s, recruits, job);
      var w := GetIdleThread();
      MoveToBusyList(w);
      SetJob(w, job);
    }

    /** What a worker does in one turn of its loop, once it holds a job: the job is executed and given up,
        the worker goes back to the idle list, and a long idle list is trimmed. */
    method WorkerTurn(w: WorkerThread<J>) returns (executed: J)
      requires Valid() && w in busyList
      modifies this, threadList
      ensures Valid() && w in old(Abstract()).load && executed == old(Abstract()).load[w]
      ensures Abstract() == Finish(limits, old(Abstract()), w)
    {
      hide Inv, Delete, Erase, U32;
      ghost var s := Abstract();
      BusyIsListed(limits, s, w);
      FinishStep(limits, s, w);
      IdleHoldNoJob();
      executed := ExecuteJob(w);
      MoveToIdleList(w);
      if |idleList| > limits.high {
        DeleteIdleThread(|idleList| - limits.init);
      }
    }
  }

  lemma NothingCreated<W, J>(s: State<W, J>)
    ensures Create(s, []) == s
  {
  }

  lemma BusyIsListed<W, J>(l: Limits, s: State<W, J>, w: W)
    requires Inv(l, s) && w in s.busy
    ensures w in s.threads && w in s.load && l.Ok()
  {
    PartitionFacts(s.threads, s.idle, s.busy);
  }

  lemma FrontIsListed<W, J>(l: Limits, s: State<W, J>, recruits: seq<W>, j: J)
    requires Inv(l, s) && CanDispatch(l, s) && |recruits| == Growth(l, s) && Fresh(s.threads, recruits)
    ensures var grown := Create(s, recruits);
            grown.idle != [] && grown.threads == s.threads + recruits && grown.idle[0] in grown.threads
  {
    GrowthIsPlain(l, s);
    PartitionFacts(s.threads, s.idle, s.busy);
    CreateAdds(s, recruits);
    SomeoneIdle(l, s, recruits);
    var line := s.idle + recruits;
    if s.idle == [] {
      assert line[0] == recruits[0];
    } else {
      assert line[0] == s.idle[0];
    }
  }

  lemma {:induction false} CreateAppend<W, J>(s: State<W, J>, recruits: seq<W>, w: W)
    ensures Create(s, recruits + [w]) ==
            (var t := Create(s, recruits); Append(t, w).(avail := U32(t.avail + 1)))
    decreases |recruits|
  {
    if recruits == [] {
      assert [w][1..] == [];
    } else {
      assert (recruits + [w])[1..] == recruits[1..] + [w];
      CreateAppend(Append(s, recruits[0]).(avail := U32(s.avail + 1)), recruits[1..], w);
    }
  }

  lemma InvOk<W, J>(l: Limits, s: State<W, J>)
    requires Inv(l, s)
    ensures l.Ok()
  {
  }

  /** The turn of a worker makes room below the maximum. */
  lemma WakerFrees<W, J>(l: Limits, s: State<W, J>, w: W)
    requires Inv(l, s) && w in s.busy && |s.busy| == l.max
    ensures var t := Finish(l, s, w); Inv(l, t) && CanDispatch(l, t) && forall i :: 0 <= i < |t.threads| ==> t.threads[i] in s.threads
  {
    hide Partition, Delete, Erase;
    FinishStep(l, s, w);
    var u := MoveToIdle(s.(load := s.load - {w}), w);
    if |u.idle| > l.high {
      DeleteShrinks(u, |u.idle| - l.init);
    }
    PartitionFacts(s.threads, s.idle, s.busy);
    EraseKeepsDistinct(s.busy, w);
  }
}
