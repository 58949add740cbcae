/** The job pool as a state machine: `Dispatch` is one call of `CThreadPool::Run`, `Finish` is what a
    worker does once its job has run. */
module JobPoolSpec {
  import opened CTypes
  import opened Lists
  import opened Pools

  /** The thresholds, as the constructor sets them. */
  datatype Limits = Limits(max: nat, low: nat, high: nat, init: nat) {
    ghost predicate Ok() { 0 < low <= init <= high && init <= max < 0x8000_0000 && high < 0x8000_0000 }
  }

  /** `DeleteIdleThread` while the idle list has that many workers. */
  function Delete<W, J>(s: State<W, J>, num: nat): State<W, J>
    requires num <= |s.idle|
    decreases num
  {
    if num == 0 then s
    else
      var w := s.idle[0];
      Delete(s.(idle := s.idle[1..], threads := Erase(s.threads, w), avail := U32(s.avail - 1)), num - 1)
  }

  /** The number `Run` passes to `CreateIdleThread`, in the source's unsigned arithmetic: 0 when it does not call it. */
  function GrowthArgument<W, J>(l: Limits, s: State<W, J>): int {
    if |s.idle| >= l.low then 0
    else if U64(U32(|s.threads| + l.init) - |s.idle|) < l.max then Int32(U64(l.init - |s.idle|))
    else Int32(U32(l.max - |s.threads|))
  }

  /** How many workers that creates. */
  function Growth<W, J>(l: Limits, s: State<W, J>): nat {
    if GrowthArgument(l, s) > 0 then GrowthArgument(l, s) else 0
  }

  /** Whether a call of `Run` goes ahead without waiting for a busy worker. */
  predicate CanDispatch<W, J>(l: Limits, s: State<W, J>) { |s.busy| != l.max }

  function Dispatch<W, J>(l: Limits, s: State<W, J>, recruits: seq<W>, j: J): State<W, J>
    requires Inv(l, s) && CanDispatch(l, s) && |recruits| == Growth(l, s)
  {
    SomeoneIdle(l, s, recruits);
    var grown := Create(s, recruits);
    var w := grown.idle[0];
    var t := MoveToBusy(grown, w);
    t.(load := t.load[w := j])
  }

  function Trim<W, J>(l: Limits, s: State<W, J>): State<W, J>
    requires l.Ok()
  {
    if |s.idle| > l.high then Delete(s, |s.idle| - l.init) else s
  }

  function Finish<W, J>(l: Limits, s: State<W, J>, w: W): State<W, J>
    requires l.Ok()
  {
    Trim(l, MoveToIdle(s.(load := s.load - {w}), w))
  }

  /** Exactly the busy workers hold a job. */
  ghost predicate OnePerBusy<W, J>(jobs: map<W, J>, busy: seq<W>) {
    (forall i :: 0 <= i < |busy| ==> busy[i] in jobs) && (forall w :: w in jobs ==> w in busy)
  }

  /** What holds between any two steps. */
  ghost predicate Inv<W, J>(l: Limits, s: State<W, J>) {
    && l.Ok()
    && Partition(s.threads, s.idle, s.busy)
    && l.init <= |s.threads| <= l.max && |s.idle| <= l.high
    && s.avail == |s.idle|
    && OnePerBusy(s.load, s.busy)
  }

  /** The growth formulas never wrap: what is created is what the plain numbers say. */
  lemma GrowthIsPlain<W, J>(l: Limits, s: State<W, J>)
    requires Inv(l, s)
    ensures Growth(l, s) == GrowthArgument(l, s) ==
            if |s.idle| >= l.low then 0
            else if |s.threads| + l.init - |s.idle| < l.max then l.init - |s.idle|
            else l.max - |s.threads|
  {
    hide U32, U64, Int32;
    PartitionFacts(s.threads, s.idle, s.busy);
  }

  /** Dispatch never starves: below the maximum of busy workers, the growth step leaves an idle worker. */
  lemma SomeoneIdle<W, J>(l: Limits, s: State<W, J>, recruits: seq<W>)
    requires Inv(l, s) && CanDispatch(l, s) && |recruits| == Growth(l, s)
    ensures Create(s, recruits).idle != []
  {
    GrowthIsPlain(l, s);
    PartitionFacts(s.threads, s.idle, s.busy);
    CreateAdds(s, recruits);
  }

  /** Dispatch keeps the invariant, gives the job to the worker that is first in line, and leaves the
      others in line as they were, with the new ones behind. */
  lemma DispatchStep<W, J>(l: Limits, s: State<W, J>, recruits: seq<W>, j: J)
    requires Inv(l, s) && CanDispatch(l, s) && |recruits| == Growth(l, s) && Fresh(s.threads, recruits)
    ensures var t := Dispatch(l, s, recruits, j);
            var line := s.idle + recruits;
            && Inv(l, t)
            && line != [] && t.idle == line[1..] && t.busy == s.busy + [line[0]]
            && t.threads == s.threads + recruits
            && line[0] !in s.busy && t.load == s.load[line[0] := j]
  {
    hide U32, U64, Int32, Partition, Create, Growth, GrowthArgument, Erase;
    PartitionFacts(s.threads, s.idle, s.busy);
    GrowthIsPlain(l, s);
    SomeoneIdle(l, s, recruits);
    CreateAdds(s, recruits);
    PartitionGrown(s.threads, s.idle, s.busy, recruits);
    var line := s.idle + recruits;
    PartitionFacts(s.threads + recruits, line, s.busy);
    PartitionMoved(s.threads + recruits, line, s.busy, line[0]);
    EraseFirst(line);
    PartitionFacts(s.threads + recruits, line[1..], s.busy + [line[0]]);
  }

  lemma EraseFirst<W>(s: seq<W>)
    requires s != []
    ensures Erase(s, s[0]) == s[1..]
  {
  }

  lemma PartitionTrimmed<W>(all: seq<W>, a: seq<W>, b: seq<W>)
    requires Partition(all, a, b) && a != []
    ensures Partition(Erase(all, a[0]), a[1..], b)
    ensures forall w :: w in Erase(all, a[0]) <==> w in all && w != a[0]
  {
    PartitionFacts(all, a, b);
    EraseMultiset(all, a[0]);
    EraseKeepsDistinct(all, a[0]);
    assert a == [a[0]] + a[1..];
  }

  lemma {:induction false} DeleteFront<W, J>(s: State<W, J>, num: nat)
    requires num <= |s.idle| == s.avail < 0x1_0000_0000 && Partition(s.threads, s.idle, s.busy)
    ensures var t := Delete(s, num);
            && t.idle == s.idle[num..] && t.busy == s.busy && t.load == s.load && t.avail == s.avail - num
            && Partition(t.threads, t.idle, t.busy)
            && (forall w :: w in t.threads <==> w in s.threads && w !in s.idle[..num])
    decreases num
  {
    hide U32, Partition, Erase;
    if num == 0 {
    } else {
      var w := s.idle[0];
      var t := s.(idle := s.idle[1..], threads := Erase(s.threads, w), avail := U32(s.avail - 1));
      PartitionTrimmed(s.threads, s.idle, s.busy);
      DeleteFront(t, num - 1);
      assert t.idle[num - 1..] == s.idle[num..];
      assert s.idle[..num] == [w] + t.idle[..num - 1];
    }
  }

  /** A worker that joins the end of the line, before any trimming. */
  lemma BackInLine<W, J>(l: Limits, s: State<W, J>, w: W)
    requires Inv(l, s) && w in s.busy
    ensures var u := MoveToIdle(s.(load := s.load - {w}), w);
            && u.idle == s.idle + [w] && u.busy == Erase(s.busy, w) && u.threads == s.threads
            && u.avail == |u.idle| && Partition(u.threads, u.idle, u.busy)
            && u.load == s.load - {w} && OnePerBusy(u.load, u.busy)
  {
    hide U32, Partition, Erase, OnePerBusy;
    PartitionFacts(s.threads, s.idle, s.busy);
    PartitionSwapped(s.threads, s.idle, s.busy);
    PartitionMoved(s.threads, s.busy, s.idle, w);
    JobGone(s.load, s.busy, w);
  }

  lemma JobGone<W, J>(jobs: map<W, J>, busy: seq<W>, w: W)
    requires Distinct(busy) && OnePerBusy(jobs, busy)
    ensures OnePerBusy(jobs - {w}, Erase(busy, w))
  {
    EraseKeepsDistinct(busy, w);
  }

  /** Finish keeps the invariant. The worker joins the end of the line; past the high mark only the last
      `init` of the line stay, and the worker itself is always among them. */
  lemma FinishStep<W, J>(l: Limits, s: State<W, J>, w: W)
    requires Inv(l, s) && w in s.busy
    ensures var t := Finish(l, s, w);
            var line := s.idle + [w];
            && Inv(l, t)
            && t.idle == (if |line| > l.high then line[|line| - l.init..] else line)
            && t.idle != [] && t.idle[|t.idle| - 1] == w
            && t.busy == Erase(s.busy, w) && t.load == s.load - {w}
            && (forall v :: v in t.threads <==> v in s.threads && (v in s.idle ==> v in t.idle))
  {
    hide U32, Partition, Erase, MoveToIdle, Delete;
    BackInLine(l, s, w);
    PartitionFacts(s.threads, s.idle, s.busy);
    var u := MoveToIdle(s.(load := s.load - {w}), w);
    PartitionFacts(u.threads, u.idle, u.busy);
    if |u.idle| > l.high {
      TrimStep(l, u);
      var t := Delete(u, |u.idle| - l.init);
      assert t.idle[|t.idle| - 1] == u.idle[|u.idle| - 1];
    }
  }

  lemma TrimStep<W, J>(l: Limits, u: State<W, J>)
    requires l.Ok() && |u.idle| > l.high && u.avail == |u.idle| < 0x1_0000_0000 && Partition(u.threads, u.idle, u.busy)
    ensures var t := Delete(u, |u.idle| - l.init);
            && t.idle == u.idle[|u.idle| - l.init..] && t.busy == u.busy && t.load == u.load && t.avail == l.init
            && Partition(t.threads, t.idle, t.busy) && |t.threads| == l.init + |u.busy|
            && (forall v :: v in t.threads <==> v in u.threads && (v in u.idle ==> v in t.idle))
  {
    hide U32, Partition, Erase, Delete;
    var num := |u.idle| - l.init;
    DeleteFront(u, num);
    var t := Delete(u, num);
    PartitionFacts(u.threads, u.idle, u.busy);
    PartitionFacts(t.threads, t.idle, t.busy);
    forall v | v in u.idle
      ensures v in u.idle[..num] <==> v !in t.idle
    {
      SplitDistinct(u.idle, num, v);
    }
    assert u.idle == u.idle[..num] + t.idle;
  }

  lemma SplitDistinct<W>(s: seq<W>, n: nat, v: W)
    requires Distinct(s) && n <= |s| && v in s
    ensures v in s[..n] <==> v !in s[n..]
  {
    var i :| 0 <= i < |s| && s[i] == v;
    if i < n {
      assert s[..n][i] == v;
    } else {
      assert s[n..][i - n] == v;
    }
  }

  /** A trim only takes workers away. */
  lemma {:induction false} DeleteShrinks<W, J>(s: State<W, J>, num: nat)
    requires num <= |s.idle|
    ensures forall i :: 0 <= i < |Delete(s, num).threads| ==> Delete(s, num).threads[i] in s.threads
    decreases num
  {
    if num == 0 {
    } else {
      var w := s.idle[0];
      EraseElements(s.threads, w);
      var rest, t := Erase(s.threads, w), Delete(s, num);
      var u := s.(idle := s.idle[1..], threads := rest, avail := U32(s.avail - 1));
      DeleteShrinks(u, num - 1);
      var v := Delete(u, num - 1);
      assert t == v;
      forall i | 0 <= i < |t.threads|
        ensures t.threads[i] in s.threads
      {
        assert v.threads[i] in u.threads;
        var j :| 0 <= j < |rest| && rest[j] == t.threads[i];
      }
    }
  }
}
