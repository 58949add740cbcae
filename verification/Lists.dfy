/** `std::find` followed by `erase` on a vector, and what it does to the elements. */
module Lists {

  function Erase<T(==)>(s: seq<T>, x: T): (r: seq<T>)
    ensures x !in s ==> r == s
    ensures x in s ==> |r| == |s| - 1
  {
    if s == [] then [] else if s[0] == x then s[1..] else [s[0]] + Erase(s[1..], x)
  }

  ghost predicate Distinct<T>(s: seq<T>) {
    forall i, j :: 0 <= i < j < |s| ==> s[i] != s[j]
  }

  lemma {:induction false} EraseMultiset<T>(s: seq<T>, x: T)
    requires x in s
    ensures multiset(Erase(s, x)) == multiset(s) - multiset{x}
  {
    assert s == [s[0]] + s[1..];
    if s[0] == x {
    } else {
      EraseMultiset(s[1..], x);
    }
  }

  lemma {:induction false} EraseElements<T>(s: seq<T>, x: T)
    ensures forall i :: 0 <= i < |Erase(s, x)| ==> Erase(s, x)[i] in s
    ensures forall i :: 0 <= i < |s| && s[i] != x ==> s[i] in Erase(s, x)
  {
    if s == [] {
    } else {
      assert forall i :: 1 <= i < |s| ==> s[i] == s[1..][i - 1];
      EraseElements(s[1..], x);
    }
  }

  /** The first occurrence of x, and what is around it. */
  lemma {:induction false} EraseAt<T>(s: seq<T>, i: nat)
    requires i < |s| && forall j :: 0 <= j < i ==> s[j] != s[i]
    ensures Erase(s, s[i]) == s[..i] + s[i + 1..]
  {
    if i == 0 {
    } else {
      EraseAt(s[1..], i - 1);
      assert s[1..][..i - 1] == s[1..i];
      assert s[1..][i..] == s[i + 1..];
    }
  }

  lemma {:induction false} EraseKeepsDistinct<T>(s: seq<T>, x: T)
    requires Distinct(s)
    ensures var r := Erase(s, x);
            && Distinct(r) && x !in r
            && (forall i :: 0 <= i < |r| ==> r[i] in s)
            && (forall i :: 0 <= i < |s| && s[i] != x ==> s[i] in r)
  {
    if s == [] {
    } else {
      var rest, r := s[1..], Erase(s, x);
      assert forall i :: 1 <= i < |s| ==> s[i] == rest[i - 1];
      EraseKeepsDistinct(rest, x);
      if s[0] == x {
        assert x !in rest;
      } else {
        var e := Erase(rest, x);
        assert r == [s[0]] + e;
        assert s[0] !in e;
      }
    }
  }

  lemma EraseOne<T>(s: seq<T>, i: nat)
    requires Distinct(s) && i < |s|
    ensures Erase(s, s[i]) == s[..i] + s[i + 1..]
  {
    EraseAt(s, i);
  }

  lemma CountFirst<T>(s: seq<T>, x: T)
    requires s != []
    ensures multiset(s)[x] == multiset(s[1..])[x] + if x == s[0] then 1 else 0
  {
    assert s == [s[0]] + s[1..];
  }

  lemma DistinctFirst<T>(s: seq<T>)
    requires s != []
    ensures Distinct(s) <==> s[0] !in s[1..] && Distinct(s[1..])
  {
    var rest := s[1..];
    if Distinct(s) {
      assert forall i :: 0 <= i < |rest| ==> rest[i] == s[i + 1];
    }
    if s[0] !in rest && Distinct(rest) {
      assert forall j :: 1 <= j < |s| ==> s[j] == rest[j - 1];
    }
  }

  /** A list without repetitions is one whose elements each count once. */
  lemma {:induction false} DistinctCounts<T>(s: seq<T>)
    ensures Distinct(s) <==> forall x :: multiset(s)[x] <= 1
  {
    hide Distinct;
    if s == [] {
      DistinctNone<T>();
    } else {
      DistinctCounts(s[1..]);
      DistinctFirst(s);
      forall x ensures multiset(s)[x] == multiset(s[1..])[x] + if x == s[0] then 1 else 0 {
        CountFirst(s, x);
      }
      assert s[0] in s[1..] <==> multiset(s[1..])[s[0]] > 0;
    }
  }

  lemma DistinctNone<T>()
    ensures Distinct<T>([])
  {
  }

  /** A list that is two lists put together, in some order, without repetitions. */
  ghost predicate Partition<T>(all: seq<T>, a: seq<T>, b: seq<T>) {
    Distinct(all) && multiset(all) == multiset(a) + multiset(b)
  }
}
