/** The three lists and the counter of a `CThreadPool`, and the moves between them. Both pools of the
    server are of this class: the job pool and the pool of connection workers. */
module Pools {
  import opened CTypes
  import opened Lists

  /** The lists, the counter, and what the workers hold: a job each in one pool, a queue of connections
      each in the other. */
  datatype State<W(==), L> = State(threads: seq<W>, idle: seq<W>, busy: seq<W>, avail: nat, load: map<W, L>)

  function Append<W, L>(s: State<W, L>, w: W): State<W, L> {
    s.(idle := s.idle + [w], threads := s.threads + [w])
  }

  function Create<W, L>(s: State<W, L>, recruits: seq<W>): State<W, L>
    decreases |recruits|
  {
    if recruits == [] then s
    else
      var t := Append(s, recruits[0]);
      Create(t.(avail := U32(s.avail + 1)), recruits[1..])
  }

  function MoveToBusy<W, L>(s: State<W, L>, w: W): State<W, L> {
    s.(busy := s.busy + [w], avail := U32(s.avail - 1), idle := Erase(s.idle, w))
  }

  function MoveToIdle<W, L>(s: State<W, L>, w: W): State<W, L> {
    s.(idle := s.idle + [w], avail := U32(s.avail + 1), busy := Erase(s.busy, w))
  }

  lemma PartitionFacts<W>(all: seq<W>, a: seq<W>, b: seq<W>)
    requires Partition(all, a, b)
    ensures |all| == |a| + |b| && Distinct(a) && Distinct(b)
    ensures forall w :: w in all <==> w in a || w in b
    ensures forall w :: w in a ==> w !in b
  {
    assert |multiset(all)| == |multiset(a)| + |multiset(b)|;
    DistinctCounts(all);
    DistinctCounts(a);
    DistinctCounts(b);
    assert forall w :: multiset(all)[w] == multiset(a)[w] + multiset(b)[w];
    assert forall w :: w in all <==> multiset(all)[w] > 0;
    assert forall w :: w in a <==> multiset(a)[w] > 0;
    assert forall w :: w in b <==> multiset(b)[w] > 0;
  }

  /** Fresh workers are new to the pool and different from each other. */
  ghost predicate Fresh<W>(threads: seq<W>, recruits: seq<W>) {
    Distinct(recruits) && forall w :: w in recruits ==> w !in threads
  }

  lemma {:induction false} CreateAdds<W, L>(s: State<W, L>, recruits: seq<W>)
    requires s.avail + |recruits| < 0x1_0000_0000
    ensures Create(s, recruits) == s.(threads := s.threads + recruits, idle := s.idle + recruits, avail := s.avail + |recruits|)
    decreases |recruits|
  {
    if recruits == [] {
      assert s.threads + [] == s.threads && s.idle + [] == s.idle;
    } else {
      CreateAdds(Append(s, recruits[0]).(avail := U32(s.avail + 1)), recruits[1..]);
      assert (s.threads + [recruits[0]]) + recruits[1..] == s.threads + recruits;
      assert (s.idle + [recruits[0]]) + recruits[1..] == s.idle + recruits;
    }
  }

  lemma PartitionGrown<W>(all: seq<W>, a: seq<W>, b: seq<W>, recruits: seq<W>)
    requires Partition(all, a, b) && Fresh(all, recruits)
    ensures Partition(all + recruits, a + recruits, b)
  {
    var grown := all + recruits;
    assert forall i :: 0 <= i < |all| ==> grown[i] == all[i] && all[i] in all;
    assert forall i :: |all| <= i < |grown| ==> grown[i] == recruits[i - |all|] && recruits[i - |all|] in recruits;
    assert multiset(all + recruits) == multiset(all) + multiset(recruits);
    assert multiset(a + recruits) == multiset(a) + multiset(recruits);
  }

  lemma PartitionMoved<W>(all: seq<W>, a: seq<W>, b: seq<W>, w: W)
    requires Partition(all, a, b) && w in a
    ensures Partition(all, Erase(a, w), b + [w]) && |Erase(a, w)| == |a| - 1
    ensures Partition(all, b + [w], Erase(a, w))
  {
    EraseMultiset(a, w);
    assert multiset(b + [w]) == multiset(b) + multiset{w};
  }

  lemma PartitionSwapped<W>(all: seq<W>, a: seq<W>, b: seq<W>)
    requires Partition(all, a, b)
    ensures Partition(all, b, a)
  {
  }
}
