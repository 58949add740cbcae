/** The connections of one worker: a doubly linked list between two sentinels. */
module ConnQueue {
  import opened Lists

  const MAX_OPEN_FD := 2000

  class Conn {
    const fd: int
    var prev: Conn?
    var next: Conn?

    constructor (fd: int)
      ensures this.fd == fd && prev == null && next == null
    {
      this.fd := fd;
      prev, next := null, null;
    }
  }

  ghost function Reverse<T>(s: seq<T>): (r: seq<T>)
    ensures |r| == |s| && forall i :: 0 <= i < |s| ==> r[i] == s[|s| - 1 - i]
  {
    if s == [] then [] else Reverse(s[1..]) + [s[0]]
  }

  /** Neighbours in the sequence are neighbours by both links, and the ends are open. */
  ghost predicate Linked(nodes: seq<Conn>)
    reads nodes
  {
    && |nodes| >= 2 && Distinct(nodes)
    && nodes[0].prev == null && nodes[|nodes| - 1].next == null
    && (forall i {:trigger nodes[i].next} :: 0 <= i < |nodes| - 1 ==> nodes[i].next == nodes[i + 1])
    && (forall i {:trigger nodes[i].prev} :: 1 <= i < |nodes| ==> nodes[i].prev == nodes[i - 1])
  }

  lemma InsertedBehindHead(was: seq<Conn>, n: Conn)
    requires |was| >= 2
    ensures var s := [was[0], n] + was[1..];
            && s[1..|s| - 1] == [n] + was[1..|was| - 1]
            && s[0] == was[0] && s[1] == n && forall i :: 2 <= i < |s| ==> s[i] == was[i - 1]
  {
  }

  class ConnQueue {
    var currentConnNum: nat
    const head: Conn
    const tail: Conn
    /** The sentinels and the connections between them, in forward order. */
    ghost var nodes: seq<Conn>

    ghost function Repr(): set<object>
      reads this
    {
      {this} + (set n: object | n in nodes)
    }

    ghost predicate Valid()
      reads this, nodes
      ensures Valid() ==> currentConnNum == |nodes| - 2 <= MAX_OPEN_FD
    {
      && Linked(nodes)
      && nodes[0] == head && nodes[|nodes| - 1] == tail
      && currentConnNum == |nodes| - 2 <= MAX_OPEN_FD
    }

    /** The connections, newest first. */
    ghost function Conns(): (s: seq<Conn>)
      requires |nodes| >= 2
      reads this
      ensures |s| == |nodes| - 2
    {
      nodes[1..|nodes| - 1]
    }

    constructor ()
      ensures Valid() && Conns() == [] && fresh(Repr())
    {
      head := new Conn(0);
      tail := new Conn(0);
      currentConnNum := 0;
      new;
      head.prev, tail.next := null, null;
      head.next := tail;
      tail.prev := head;
      nodes := [head, tail];
    }

    /** A new connection goes right behind the head, unless the queue is full. */
    method InsertConn(fd: int) returns (c: Conn?)
      requires Valid()
      modifies Repr()
      ensures Valid() && fresh(Repr() - old(Repr()))
      ensures old(|Conns()|) < 2000 ==> c != null && fresh(c) && c.fd == fd && Conns() == [c] + old(Conns())
      ensures old(|Conns()|) == 2000 ==> c == null && nodes == old(nodes)
    {
      if currentConnNum < MAX_OPEN_FD {
        var n := new Conn(fd);
        var next := head.next;
        n.prev := head;
        n.next := head.next;
        head.next := n;
        next.prev := n;
        currentConnNum := currentConnNum + 1;
        InsertedBehindHead(nodes, n);
        nodes := [nodes[0], n] + nodes[1..];
        c := n;
      } else {
        c := null;
      }
    }

    method DeleteConn(c: Conn, ghost k: nat)
      requires Valid() && k < |Conns()| && Conns()[k] == c
      modifies Repr()
      ensures Valid() && Repr() <= old(Repr())
      ensures Conns() == old(Conns())[..k] + old(Conns())[k + 1..]
      ensures c !in Conns()
    {
      assert nodes[k + 1] == c;
      c.prev.next := c.next;
      c.next.prev := c.prev;
      currentConnNum := currentConnNum - 1;
      nodes := nodes[..k + 1] + nodes[k + 2..];
    }

    /** The destructor: follow the links from the head and delete every node. The nodes are returned in
        the order in which they are deleted. */
    method Destroy() returns (deleted: seq<Conn>)
      requires Valid()
      ensures deleted == nodes && Distinct(deleted)
    {
      deleted := [];
      var cur: Conn? := head;
      while cur != null
        invariant |deleted| <= |nodes| && deleted == nodes[..|deleted|]
        invariant cur == if |deleted| < |nodes| then nodes[|deleted|] else null
        decreases |nodes| - |deleted|
      {
        var next := cur.next;
        deleted := deleted + [cur];
        cur := next;
      }
    }

    /** What one meets by following one of the two links from a node, for at most so many steps. */
    ghost function Follow(c: Conn?, forward: bool, steps: nat): seq<Conn>
      reads this, nodes
      decreases steps
    {
      if c == null || steps == 0 || c !in nodes then []
      else [c] + Follow(if forward then c.next else c.prev, forward, steps - 1)
    }

    lemma {:induction false} FollowForward(k: nat, steps: nat)
      requires Valid() && k < |nodes| && steps >= |nodes| - k
      ensures Follow(nodes[k], true, steps) == nodes[k..]
      decreases steps
    {
      if k + 1 == |nodes| {
      } else {
        FollowForward(k + 1, steps - 1);
      }
    }

    lemma {:induction false} FollowBackward(k: nat, steps: nat)
      requires Valid() && k < |nodes| && steps >= k + 1
      ensures Follow(nodes[k], false, steps) == Reverse(nodes[..k + 1])
      decreases steps
    {
      var s := nodes[..k + 1];
      if k == 0 {
      } else {
        FollowBackward(k - 1, steps - 1);
        assert s[..k] == nodes[..k];
      }
      assert forall i :: 1 <= i < |s| ==> Reverse(s)[i] == s[|s| - 1 - i] == nodes[..k][k - 1 - (i - 1)];
    }

    /** Both traversals end, whatever the number of steps allowed, and backward is forward reversed. */
    lemma TraversalsAgree(steps: nat)
      requires Valid() && steps >= |nodes|
      ensures Follow(head, true, steps) == nodes
      ensures Follow(tail, false, steps) == Reverse(Follow(head, true, steps))
    {
      hide Follow, Reverse, Linked;
      FollowForward(0, steps);
      FollowBackward(|nodes| - 1, steps);
      assert nodes[..|nodes|] == nodes == nodes[0..];
    }
  }
}
