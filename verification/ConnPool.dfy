/** `CThreadPool` in its role as the pool of connection workers, each with its linked queue, proved
    against the state machine. */
module ConnPool {
  import opened CTypes
  import opened Lists
  import opened Pools
  import opened ConnQueue
  import S = ConnPoolSpec

  class ConnWorker {
    const connectQueue: ConnQueue

    constructor ()
      ensures fresh(connectQueue) && fresh(connectQueue.Repr())
      ensures connectQueue.Valid() && connectQueue.Conns() == []
    {
      connectQueue := new ConnQueue();
    }
  }

  class ThreadPool {
    var threadList: seq<ConnWorker>
    var busyList: seq<ConnWorker>
    var idleList: seq<ConnWorker>
    var availNum: nat
    /** The pool, the queues of its workers and their nodes. */
    ghost var repr: set<object>

    /** Every queue is well linked, and no two share a node. */
    ghost predicate Separate()
      reads this, repr
    {
      && this in repr
      && (forall w :: w in threadList ==>
                        w.connectQueue in repr && w.connectQueue.Repr() <= repr && this !in w.connectQueue.Repr() &&
                        w.connectQueue.Valid())
      && (forall v, w :: v in threadList && w in threadList && v != w ==>
                           v.connectQueue.Repr() !! w.connectQueue.Repr())
    }

    /** The pool as a state of the machine. */
    ghost function Abstract(): S.Pool<ConnWorker, Conn>
      requires Separate()
      reads this, repr
    {
      State(threadList, idleList, busyList, availNum, Loads())
    }

    ghost function Loads(): map<ConnWorker, seq<Conn>>
      requires Separate()
      reads this, repr
    {
      map w | w in threadList :: w.connectQueue.Conns()
    }

    ghost predicate Valid()
      reads this, repr
    {
      Separate() && S.Inv(Abstract())
    }

    method MoveToBusyList(w: ConnWorker)
      requires Separate()
      modifies this`busyList, this`availNum, this`idleList
      ensures Separate() && Abstract() == MoveToBusy(old(Abstract()), w)
    {
      hide Linked, Distinct, ConnQueue.Valid;
      busyList := busyList + [w];
      availNum := U32(availNum - 1);
      idleList := Erase(idleList, w);
    }

    method MoveToIdleList(w: ConnWorker)
      requires Separate()
      modifies this`busyList, this`availNum, this`idleList
      ensures Separate() && Abstract() == MoveToIdle(old(Abstract()), w)
    {
      hide Linked, Distinct, ConnQueue.Valid;
      idleList := idleList + [w];
      availNum := U32(availNum + 1);
      busyList := Erase(busyList, w);
    }

    /** One turn of `CreateMainIdleThread`. */
    method CreateMainIdleThread() returns (w: ConnWorker)
      requires Separate()
      modifies this
      ensures Separate() && fresh(w) && fresh(repr - old(repr)) && w !in old(threadList)
      ensures Abstract() ==
              (var t := Create(old(Abstract()), [w]); t.(load := t.load[w := []]))
    {
      hide Linked, Distinct, U32, Create, ConnQueue.Valid, Separate, Loads;
      ghost var s := Abstract();
      w := new ConnWorker();
      AppendToIdleList(w);
      OneMoreIdle();
      S.OneCreated(s, w);
    }

    /** The section of `CreateMainIdleThread` under the counter's own mutex. */
    method OneMoreIdle()
      requires Separate()
      modifies this`availNum
      ensures Separate() && availNum == U32(old(availNum) + 1) && Loads() == old(Loads())
    {
      hide Linked, Distinct, ConnQueue.Valid, U32;
      availNum := U32(availNum + 1);
    }

    /** `InsertConn` for the queue of an idle worker, with the moves it makes in the pool. The connection
        is never refused. */
    method InsertConn(w: ConnWorker, fd: int) returns (c: Conn, ghost spare: ConnWorker?)
      requires Valid() && w in idleList
      modifies repr
      ensures Valid() && fresh(repr - old(repr)) && fresh(c) && c.fd == fd
      ensures var s := old(Abstract());
              && w in s.load
              && (S.LastPlace(S.Inserted(s, w, c)) ==>
                    spare != null && fresh(spare) && spare !in s.threads && Abstract() == S.Accept(s, w, c, spare))
              && (!S.LastPlace(S.Inserted(s, w, c)) ==>
                    spare == null && Abstract() == S.Inserted(s, w, c))
    {
      hide S.Inv, S.Inserted, S.LastPlace, S.Count, S.Mid, S.Open, Separate, Erase, U32, Loads;
      ghost var s := Abstract();
      WorkerListed(w);
      Footprint(w);
      c := Insert(w, fd);
      ghost var t := Abstract();
      S.InsertedStep(s, w, c);
      CountIsNum(w);
      if MAX_OPEN_FD < w.connectQueue.currentConnNum + 1 {
        MoveToBusyList(w);
      }
      InsertedIs(s, t, Abstract(), w, c);
      FrontIsListed();
      if |idleList| == 1 && idleList[0].connectQueue.currentConnNum == MAX_OPEN_FD - 1 {
        spare := CreateMainIdleThread();
        S.AcceptStep(s, w, c, spare);
      } else {
        spare := null;
      }
    }

    lemma Footprint(w: ConnWorker)
      requires Separate() && w in threadList
      ensures this in repr && w.connectQueue.Repr() <= repr && this !in w.connectQueue.Repr()
      ensures w.connectQueue.Valid()
    {
    }

    lemma CountIsNum(w: ConnWorker)
      requires Separate() && w in threadList
      ensures w.connectQueue.currentConnNum == S.Count(Abstract(), w)
    {
    }

    lemma FrontIsListed()
      requires Separate() && S.Mid(Abstract()) && idleList != []
      ensures S.LastPlace(Abstract()) <==>
              |idleList| == 1 && idleList[0].connectQueue.currentConnNum == MAX_OPEN_FD - 1
    {
      PartitionFacts(threadList, idleList, busyList);
      CountIsNum(idleList[0]);
    }

    lemma WorkerListed(w: ConnWorker)
      requires Valid() && w in idleList
      ensures w in threadList && w in Abstract().load && |w.connectQueue.Conns()| < MAX_OPEN_FD
    {
      var s := Abstract();
      PartitionFacts(s.threads, s.idle, s.busy);
      var i :| 0 <= i < |idleList| && idleList[i] == w;
      assert S.Count(s, s.idle[i]) < MAX_OPEN_FD;
    }

    /** The connection goes into the worker's own queue; every other queue stays as it is. */
    method Insert(w: ConnWorker, fd: int) returns (c: Conn)
      requires Separate() && w in threadList && |w.connectQueue.Conns()| < MAX_OPEN_FD
      modifies w.connectQueue.Repr(), this`repr
      ensures Separate() && fresh(repr - old(repr)) && fresh(c) && c.fd == fd
      ensures var s := old(Abstract());
              Abstract() == s.(load := s.load[w := [c] + s.load[w]])
    {
      hide Linked, Distinct, ConnQueue.Valid, Separate;
      Footprint(w);
      ghost var before := Loads();
      var n := w.connectQueue.InsertConn(fd);
      c := n;
      repr := repr + w.connectQueue.Repr();
      OthersKept(w);
      OneChanged(before, Loads(), w);
    }

    /** The connection leaves the worker's queue; every other queue stays as it is. */
    method Delete(w: ConnWorker, c: Conn, ghost k: nat)
      requires Separate() && w in threadList && k < |w.connectQueue.Conns()| && w.connectQueue.Conns()[k] == c
      modifies w.connectQueue.Repr()
      ensures Separate()
      ensures var s := old(Abstract());
              Abstract() == s.(load := s.load[w := s.load[w][..k] + s.load[w][k + 1..]])
    {
      hide Linked, Distinct, ConnQueue.Valid, Separate;
      Footprint(w);
      ghost var before := Loads();
      w.connectQueue.DeleteConn(c, k);
      OthersKept(w);
      OneChanged(before, Loads(), w);
    }

    /** `CheckIfInBusyList`: a full worker becomes idle again, and the connection is deleted. */
    method CheckIfInBusyList(w: ConnWorker, c: Conn, ghost k: nat)
      requires Valid() && w in threadList && k < |w.connectQueue.Conns()| && w.connectQueue.Conns()[k] == c
      modifies repr
      ensures Valid() && repr == old(repr)
      ensures w in old(Abstract()).load && Abstract() == S.Close(old(Abstract()), w, c)
    {
      hide S.Inv, Separate, Erase, U32;
      ghost var s := Abstract();
      Footprint(w);
      ConnsAreDistinct(w, k);
      S.CloseStep(s, w, c);
      if w in busyList {
        MoveToIdleList(w);
      }
      Delete(w, c, k);
    }

    lemma ConnsAreDistinct(w: ConnWorker, k: nat)
      requires Separate() && w in threadList && k < |w.connectQueue.Conns()|
      ensures w in Abstract().load && Abstract().load[w] == w.connectQueue.Conns()
      ensures var q := w.connectQueue.Conns();
              q[k] in q && Erase(q, q[k]) == q[..k] + q[k + 1..]
    {
      var q := w.connectQueue.Conns();
      assert forall i :: 0 <= i < |q| ==> q[i] == w.connectQueue.nodes[i + 1];
      EraseAt(q, k);
    }

    constructor (count: nat)
      requires count > 0
      ensures Valid() && fresh(repr)
      ensures |threadList| == count && Abstract() == S.Start(threadList)
    {
      threadList, busyList, idleList := [], [], [];
      availNum := U32(count);
      repr := {this};
      new;
      var i := 0;
      while i < count
        invariant i == |threadList| <= count && busyList == [] && availNum == U32(count)
        invariant Unused() && fresh(repr)
      {
        hide *;
        AddUnused();
        i := i + 1;
      }
      hide Separate, Linked, ConnQueue.Valid, U32, S.Inv, S.Start, Loads;
      S.StartIsGood<ConnWorker, Conn>(threadList);
      StartIs();
    }

    /** Every worker is idle and without connections. */
    ghost predicate Unused()
      reads this, repr
      ensures Unused() ==> Separate()
    {
      && Separate() && Distinct(threadList) && idleList == threadList
      && forall w :: w in threadList ==> w.connectQueue.Conns() == []
    }

    /** One turn of the constructor's loop. */
    method AddUnused()
      requires Unused()
      modifies this`idleList, this`threadList, this`repr
      ensures Unused() && |threadList| == old(|threadList|) + 1 && fresh(repr - old(repr))
    {
      hide Linked, ConnQueue.Valid;
      var w := new ConnWorker();
      AppendToIdleList(w);
    }

    lemma StartIs()
      requires Unused() && busyList == [] && availNum == U32(|threadList|)
      ensures Abstract() == S.Start(threadList)
    {
    }

    method AppendToIdleList(w: ConnWorker)
      requires Separate() && w !in threadList && w.connectQueue.Valid() && w.connectQueue.Conns() == []
      requires w.connectQueue.Repr() !! repr
      modifies this`idleList, this`threadList, this`repr
      ensures idleList == old(idleList) + [w] && threadList == old(threadList) + [w]
      ensures Separate() && repr == old(repr) + w.connectQueue.Repr()
      ensures Loads() == old(Loads())[w := []]
    {
      hide Linked, Distinct, ConnQueue.Valid;
      idleList := idleList + [w];
      threadList := threadList + [w];
      repr := repr + w.connectQueue.Repr();
    }

    /** A change inside the queue of one worker leaves the queues separate and the others as they were. */
    twostate lemma OthersKept(w: ConnWorker)
      requires old(Separate()) && unchanged(`threadList) && w in threadList
      requires unchanged(old(repr - w.connectQueue.Repr()) - {this})
      requires w.connectQueue.Valid() && repr == old(repr) + w.connectQueue.Repr()
      requires fresh(w.connectQueue.Repr() - old(w.connectQueue.Repr()))
      ensures Separate()
      ensures forall v :: v in threadList && v != w ==>
                            |v.connectQueue.nodes| >= 2 && v.connectQueue.Conns() == old(v.connectQueue.Conns())
    {
      hide Linked, Distinct, ConnQueue.Valid;
    }
  }

  lemma OneChanged<K, V>(before: map<K, V>, after: map<K, V>, k: K)
    requires before.Keys == after.Keys && k in after
    requires forall j :: j in after && j != k ==> after[j] == before[j]
    ensures after == before[k := after[k]]
  {
  }

  lemma InsertedIs(s: S.Pool<ConnWorker, Conn>, t: S.Pool<ConnWorker, Conn>, u: S.Pool<ConnWorker, Conn>, w: ConnWorker, c: Conn)
    requires w in s.load && t == s.(load := s.load[w := [c] + s.load[w]])
    requires u == if MAX_OPEN_FD < S.Count(t, w) + 1 then MoveToBusy(t, w) else t
    ensures u == S.Inserted(s, w, c)
  {
  }
}
