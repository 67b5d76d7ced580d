/**
 * The sequence operations the store and the dialog rely on: Array.prototype.sort
 * (ascending, and descending by date), Array.prototype.filter dropping one value,
 * and the facts about them that the model needs.
 */
module Sorting {

  predicate SortedAscending(s: seq<int>)
  {
    forall i, j | 0 <= i < j < |s| :: s[i] <= s[j]
  }

  predicate SortedDescending(s: seq<int>)
  {
    forall i, j | 0 <= i < j < |s| :: s[i] >= s[j]
  }

  predicate NoDuplicates<T(==)>(s: seq<T>)
  {
    forall i, j | 0 <= i < j < |s| :: s[i] != s[j]
  }

  /** The head of a sorted sequence bounds every element of its tail. */
  lemma HeadBoundsTail(s: seq<int>)
    requires s != []
    ensures SortedAscending(s) ==> forall y | y in multiset(s[1..]) :: s[0] <= y
    ensures SortedDescending(s) ==> forall y | y in multiset(s[1..]) :: s[0] >= y
  {
    forall y | y in multiset(s[1..]) ensures exists k :: 1 <= k < |s| && s[k] == y {
      assert y in s[1..];
    }
  }

  lemma PrependAscending(x: int, t: seq<int>)
    requires SortedAscending(t)
    requires forall y | y in multiset(t) :: x <= y
    ensures SortedAscending([x] + t)
  {
    forall j | 0 <= j < |t| ensures x <= t[j] {
      assert t[j] in multiset(t);
    }
  }

  lemma PrependDescending(x: int, t: seq<int>)
    requires SortedDescending(t)
    requires forall y | y in multiset(t) :: x >= y
    ensures SortedDescending([x] + t)
  {
    forall j | 0 <= j < |t| ensures x >= t[j] {
      assert t[j] in multiset(t);
    }
  }

  /** Putting h in front of a sorted insertion into the tail of a sorted [h] + tail keeps it sorted. */
  lemma InsertAscendingStep(h: int, tail: seq<int>, x: int, rest: seq<int>)
    requires SortedAscending([h] + tail) && h <= x
    requires SortedAscending(rest) && multiset(rest) == multiset(tail) + multiset{x}
    ensures SortedAscending([h] + rest)
  {
    HeadBoundsTail([h] + tail);
    assert ([h] + tail)[1..] == tail;
    PrependAscending(h, rest);
  }

  lemma PrependToAscending(x: int, s: seq<int>)
    requires SortedAscending(s) && (s == [] || x <= s[0])
    ensures SortedAscending([x] + s)
  {
  }

  lemma PrependToDescending(x: int, s: seq<int>)
    requires SortedDescending(s) && (s == [] || x >= s[0])
    ensures SortedDescending([x] + s)
  {
  }

  function InsertAscending(x: int, s: seq<int>): (r: seq<int>)
    requires SortedAscending(s)
    ensures SortedAscending(r)
    ensures multiset(r) == multiset(s) + multiset{x}
  {
    if s == [] then [x]
    else if x <= s[0] then
      PrependToAscending(x, s);
      [x] + s
    else
      assert s == [s[0]] + s[1..];
      var rest := InsertAscending(x, s[1..]);
      InsertAscendingStep(s[0], s[1..], x, rest);
      [s[0]] + rest
  }

  /** Insertion sort: the ascending permutation of s. */
  function SortAscending(s: seq<int>): (r: seq<int>)
    ensures SortedAscending(r)
    ensures multiset(r) == multiset(s)
  {
    if s == [] then []
    else
      assert s == [s[0]] + s[1..];
      InsertAscending(s[0], SortAscending(s[1..]))
  }

  /** Putting h in front of a sorted insertion into the tail of a sorted [h] + tail keeps it sorted. */
  lemma InsertDescendingStep(h: int, tail: seq<int>, x: int, rest: seq<int>)
    requires SortedDescending([h] + tail) && h >= x
    requires SortedDescending(rest) && multiset(rest) == multiset(tail) + multiset{x}
    ensures SortedDescending([h] + rest)
  {
    HeadBoundsTail([h] + tail);
    assert ([h] + tail)[1..] == tail;
    PrependDescending(h, rest);
  }

  function InsertDescending(x: int, s: seq<int>): (r: seq<int>)
    requires SortedDescending(s)
    ensures SortedDescending(r)
    ensures multiset(r) == multiset(s) + multiset{x}
  {
    if s == [] then [x]
    else if x >= s[0] then
      PrependToDescending(x, s);
      [x] + s
    else
      assert s == [s[0]] + s[1..];
      var rest := InsertDescending(x, s[1..]);
      InsertDescendingStep(s[0], s[1..], x, rest);
      [s[0]] + rest
  }

  /** Insertion sort: the descending permutation of s. */
  function SortDescending(s: seq<int>): (r: seq<int>)
    ensures SortedDescending(r)
    ensures multiset(r) == multiset(s)
  {
    if s == [] then []
    else
      assert s == [s[0]] + s[1..];
      InsertDescending(s[0], SortDescending(s[1..]))
  }

  /** s without any occurrence of x, the other elements in their original order. */
  function Remove<T(==)>(s: seq<T>, x: T): (r: seq<T>)
    ensures multiset(r) == multiset(s)[x := 0]
  {
    if s == [] then []
    else
      assert s == [s[0]] + s[1..];
      (if s[0] == x then [] else [s[0]]) + Remove(s[1..], x)
  }

  /** What Remove keeps: every element of s other than x. */
  lemma RemoveMembers<T>(s: seq<T>, x: T)
    ensures forall y :: y in Remove(s, x) <==> y in s && y != x
  {
    var r := Remove(s, x);
    forall y ensures y in r <==> y in s && y != x {
      assert y in r <==> y in multiset(r);
      assert y in s <==> y in multiset(s);
    }
  }

  lemma {:induction false} RemoveAbsent<T>(s: seq<T>, x: T)
    requires x !in s
    ensures Remove(s, x) == s
  {
    if s != [] {
      RemoveAbsent(s[1..], x);
    }
  }

  lemma {:induction false} RemoveAppend<T>(a: seq<T>, b: seq<T>, x: T)
    ensures Remove(a + b, x) == Remove(a, x) + Remove(b, x)
  {
    if a == [] {
      assert a + b == b;
    } else {
      assert (a + b)[0] == a[0];
      assert (a + b)[1..] == a[1..] + b;
      RemoveAppend(a[1..], b, x);
    }
  }

  lemma {:induction false} RemoveKeepsSortedAscending(s: seq<int>, x: int)
    requires SortedAscending(s)
    ensures SortedAscending(Remove(s, x))
  {
    if s != [] {
      RemoveKeepsSortedAscending(s[1..], x);
      HeadBoundsTail(s);
      PrependAscending(s[0], Remove(s[1..], x));
    }
  }

  /** Whether every element occurs at most once can be read off the multiset. */
  lemma {:induction false} NoDuplicatesCounts<T>(s: seq<T>)
    ensures NoDuplicates(s) <==> forall x | x in multiset(s) :: multiset(s)[x] == 1
  {
    if NoDuplicates(s) {
      if s != [] {
        assert s == [s[0]] + s[1..];
        NoDuplicatesCounts(s[1..]);
        assert s[0] !in s[1..];
      }
    } else {
      var i, j :| 0 <= i < j < |s| && s[i] == s[j];
      assert s == s[..j] + s[j..];
      assert s[i] in s[..j];
      assert multiset(s)[s[i]] == multiset(s[..j])[s[i]] + multiset(s[j..])[s[j]];
    }
  }

  lemma NoDuplicatesPermutation<T>(a: seq<T>, b: seq<T>)
    requires multiset(a) == multiset(b)
    ensures NoDuplicates(a) <==> NoDuplicates(b)
  {
    NoDuplicatesCounts(a);
    NoDuplicatesCounts(b);
  }

  lemma RemoveKeepsNoDuplicates<T>(s: seq<T>, x: T)
    requires NoDuplicates(s)
    ensures NoDuplicates(Remove(s, x))
  {
    NoDuplicatesCounts(s);
    NoDuplicatesCounts(Remove(s, x));
  }

  /** Two sequences with the same elements, counted with multiplicity, have the same members. */
  lemma SameElements<T>(a: seq<T>, b: seq<T>)
    requires multiset(a) == multiset(b)
    ensures forall x :: x in a <==> x in b
  {
    forall x ensures x in a <==> x in b {
      assert x in a <==> x in multiset(a);
      assert x in b <==> x in multiset(b);
    }
  }

  /** A sorted permutation is unique: two ascending sequences with the same elements are equal. */
  lemma SortedHeadIsLeast(s: seq<int>, y: int)
    requires SortedAscending(s) && y in multiset(s)
    ensures s[0] <= y
  {
    assert y in s;
    var k :| 0 <= k < |s| && s[k] == y;
  }

  /** Two non-empty ascending sequences with the same elements start with the same, least, element. */
  lemma SortedHeadsAgree(a: seq<int>, b: seq<int>)
    requires SortedAscending(a) && SortedAscending(b)
    requires multiset(a) == multiset(b) && a != [] && b != []
    ensures a[0] == b[0]
  {
    assert b[0] in multiset(a) && a[0] in multiset(b);
    SortedHeadIsLeast(a, b[0]);
    SortedHeadIsLeast(b, a[0]);
  }

  lemma TailMultiset(s: seq<int>)
    requires s != []
    ensures multiset(s[1..]) == multiset(s) - multiset{s[0]}
    ensures SortedAscending(s) ==> SortedAscending(s[1..])
  {
    assert s == [s[0]] + s[1..];
  }

  lemma {:induction false} SortedAscendingUnique(a: seq<int>, b: seq<int>)
    requires SortedAscending(a) && SortedAscending(b)
    requires multiset(a) == multiset(b)
    ensures a == b
  {
    assert |a| == |multiset(a)| == |multiset(b)| == |b|;
    if a != [] {
      SortedHeadsAgree(a, b);
      TailMultiset(a);
      TailMultiset(b);
      SortedAscendingUnique(a[1..], b[1..]);
      assert a == [a[0]] + a[1..] && b == [b[0]] + b[1..];
    }
  }
}
