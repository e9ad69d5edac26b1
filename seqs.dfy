/** Sequence helpers standing in for the singly linked vertex and edge lists. */
module Seqs {

  /** No value occurs twice. */
  predicate Distinct(s: seq<int>) {
    forall i, j :: 0 <= i < j < |s| ==> s[i] != s[j]
  }

  /** Position of the first occurrence of `x` in `s`, or -1 when `x` does not occur
      (the walk of a list that counts hops until it meets `x`). */
  function IndexOf(s: seq<int>, x: int): (r: int)
    ensures -1 <= r < |s|
    ensures r == -1 <==> x !in s
    ensures 0 <= r ==> s[r] == x
  {
    if s == [] then -1
    else if s[0] == x then 0
    else
      var k := IndexOf(s[1..], x);
      if k == -1 then -1 else k + 1
  }

  /** No occurrence of `x` comes before `IndexOf(s, x)`. */
  lemma {:induction false} IndexOfFirst(s: seq<int>, x: int)
    ensures 0 <= IndexOf(s, x) ==> x !in s[..IndexOf(s, x)]
  {
    if s != [] && s[0] != x {
      var k := IndexOf(s[1..], x);
      IndexOfFirst(s[1..], x);
      if k >= 0 {
        assert s[..k + 1] == [s[0]] + s[1..][..k];
      }
    }
  }

  /** A position holding `x` with no `x` before it is the first occurrence. */
  lemma FirstOccurrence(s: seq<int>, x: int, k: nat)
    requires k < |s| && s[k] == x && x !in s[..k]
    ensures IndexOf(s, x) == k
  {
    IndexOfFirst(s, x);
    var r := IndexOf(s, x);
    assert x in s;
    var upToK, upToR := s[..k], s[..r];
    assert r < k ==> x in upToK;
    assert k < r ==> x in upToR;
  }

  /** In a list without repetitions the first occurrence of `s[t]` is at `t`. */
  lemma IndexOfDistinct(s: seq<int>, t: int)
    requires Distinct(s) && 0 <= t < |s|
    ensures IndexOf(s, s[t]) == t
  {
  }

  /** `x` occurs at most once in `s`. */
  predicate AtMostOnce(s: seq<int>, x: int) {
    multiset(s)[x] <= 1
  }

  /** The list with the first occurrence of `x` unlinked; the list itself when `x` is absent. */
  function RemoveFirst(s: seq<int>, x: int): (r: seq<int>)
    ensures x !in s ==> r == s
    ensures |r| == if x in s then |s| - 1 else |s|
  {
    if s == [] then []
    else if s[0] == x then s[1..]
    else
      assert x in s <==> x in s[1..];
      [s[0]] + RemoveFirst(s[1..], x)
  }

  /** Removing the first occurrence takes exactly one copy of `x` out of the multiset of values. */
  lemma {:induction false} RemoveFirstCounts(s: seq<int>, x: int)
    ensures multiset(RemoveFirst(s, x)) == multiset(s) - multiset{x}
  {
    if s != [] {
      assert s == [s[0]] + s[1..];
      if s[0] != x {
        RemoveFirstCounts(s[1..], x);
      }
    }
  }

  /** Removing the first occurrence of `x` takes out exactly the element at `IndexOf(s, x)`
      and keeps the order of the rest. */
  lemma {:induction false} RemoveFirstSplits(s: seq<int>, x: int)
    requires x in s
    ensures RemoveFirst(s, x) == s[..IndexOf(s, x)] + s[IndexOf(s, x) + 1..]
  {
    if s[0] != x {
      var t := s[1..];
      RemoveFirstSplits(t, x);
      ConsSplit(s, IndexOf(t, x));
    }
  }

  /** Splitting the tail of `s` around position `k` is splitting `s` around `k + 1`. */
  lemma ConsSplit(s: seq<int>, k: nat)
    requires k + 1 < |s|
    ensures [s[0]] + (s[1..][..k] + s[1..][k + 1..]) == s[..k + 1] + s[k + 2..]
  {
    assert s[..k + 1] == [s[0]] + s[1..][..k];
    assert s[k + 2..] == s[1..][k + 1..];
  }

  /** Every element of `RemoveFirst(s, x)` is an element of `s`, and every element of `s`
      other than `x` survives. */
  lemma RemoveFirstMembers(s: seq<int>, x: int, y: int)
    ensures y in RemoveFirst(s, x) ==> y in s
    ensures y in s && y != x ==> y in RemoveFirst(s, x)
    ensures AtMostOnce(s, x) ==> x !in RemoveFirst(s, x)
  {
    var r := RemoveFirst(s, x);
    RemoveFirstCounts(s, x);
    assert y in r <==> multiset(r)[y] > 0;
    assert y in s <==> multiset(s)[y] > 0;
    assert x in r <==> multiset(r)[x] > 0;
  }

  /** Appending `x` to a list that lacks it and removing its first occurrence gives the list back. */
  lemma RemoveFirstAppended(s: seq<int>, x: int)
    requires x !in s
    ensures RemoveFirst(s + [x], x) == s
  {
    RemoveFirstSplits(s + [x], x);
    assert (s + [x])[..|s|] == s;
  }

  /** The position that position `x` had before position `k` was erased. */
  function Skip(x: nat, k: nat): nat {
    if x < k then x else x + 1
  }

  /** The sequence with the element at position `k` erased, the others keeping their order. */
  function EraseAt<T>(s: seq<T>, k: nat): (r: seq<T>)
    requires k < |s|
    ensures |r| == |s| - 1
    ensures forall x {:trigger r[x]} :: 0 <= x < |r| ==> r[x] == s[Skip(x, k)]
  {
    s[..k] + s[k + 1..]
  }

  /** Erasing a value from a list without repetitions leaves exactly the other values. */
  lemma EraseAtMembers(s: seq<int>, k: nat, y: int)
    requires Distinct(s) && k < |s|
    ensures Distinct(EraseAt(s, k))
    ensures y in EraseAt(s, k) <==> y in s && y != s[k]
  {
    var r := EraseAt(s, k);
    if y in s && y != s[k] {
      var i :| 0 <= i < |s| && s[i] == y;
      assert r[if i < k then i else i - 1] == s[Skip(if i < k then i else i - 1, k)];
    }
    forall a, b | 0 <= a < b < |r| ensures r[a] != r[b] {
      assert r[a] == s[Skip(a, k)] && r[b] == s[Skip(b, k)];
    }
  }
}
