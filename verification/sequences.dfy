/** Order facts about sequences that the component relies on: the filtered view is an
    order-preserving subsequence of the catalogue, and the unique-value lists are the
    catalogue's values without repeats, in the order they were first seen. */
module Sequences {

  /** `a` can be obtained from `b` by deleting elements, keeping the relative order. */
  predicate IsSubsequence<T(==)>(a: seq<T>, b: seq<T>)
    decreases |b|
  {
    || |a| == 0
    || (&& |b| > 0
        && ((a[0] == b[0] && IsSubsequence(a[1..], b[1..])) || IsSubsequence(a, b[1..])))
  }

  lemma {:induction false} SubsequenceReflexive<T>(s: seq<T>)
    ensures IsSubsequence(s, s)
    decreases |s|
  {
    if |s| > 0 {
      SubsequenceReflexive(s[1..]);
    }
  }

  predicate NoDuplicates<T(==)>(s: seq<T>) {
    forall i, j :: 0 <= i < j < |s| ==> s[i] != s[j]
  }

  /** The position of the first occurrence of `x` in `s`. */
  function FirstIndex<T(==)>(s: seq<T>, x: T): (k: nat)
    requires x in s
    ensures k < |s| && s[k] == x
    ensures forall j :: 0 <= j < k ==> s[j] != x
  {
    if s[0] == x then 0 else 1 + FirstIndex(s[1..], x)
  }

  /** Every element of `r` occurs in `s`, and `r` lists them in the order of their first
      occurrence in `s` (strictly, so `r` has no repeats). */
  predicate InFirstSeenOrder<T(==)>(r: seq<T>, s: seq<T>) {
    && (forall i :: 0 <= i < |r| ==> r[i] in s)
    && (forall i, j :: 0 <= i < j < |r| && r[i] in s && r[j] in s ==>
          FirstIndex(s, r[i]) < FirstIndex(s, r[j]))
  }

  /** Appending to `s` leaves the first occurrence of earlier values where it was, and a new
      value's first occurrence is the appended position. */
  lemma FirstIndexSnoc<T>(s: seq<T>, x: T)
    ensures forall y :: y in s ==> FirstIndex(s + [x], y) == FirstIndex(s, y)
    ensures x !in s ==> FirstIndex(s + [x], x) == |s|
  {
    forall y | y in s
      ensures FirstIndex(s + [x], y) == FirstIndex(s, y)
    {
      var k, k' := FirstIndex(s, y), FirstIndex(s + [x], y);
      assert (s + [x])[k] == y;
    }
  }

  /** `Set.prototype.add` on a set iterated in insertion order, seen through its iteration
      order: a value already present changes nothing, a new one goes to the end. */
  function InsertionOrderedAdd<T(==)>(order: seq<T>, x: T): seq<T> {
    if x in order then order else order + [x]
  }

  /** Adding every element of `s`, in order, to an initially empty insertion-ordered set and
      reading the set back as a sequence. */
  function Distinct<T(==)>(s: seq<T>): (r: seq<T>)
    ensures |r| <= |s|
    decreases |s|
  {
    if |s| == 0 then [] else InsertionOrderedAdd(Distinct(s[..|s| - 1]), s[|s| - 1])
  }

  /** The result has no repeats and holds every value of `s` and nothing else. */
  lemma {:induction false} DistinctMembers<T>(s: seq<T>)
    ensures NoDuplicates(Distinct(s))
    ensures forall i :: 0 <= i < |s| ==> s[i] in Distinct(s)
    ensures forall i :: 0 <= i < |Distinct(s)| ==> Distinct(s)[i] in s
    decreases |s|
  {
    if |s| > 0 {
      var p, x := s[..|s| - 1], s[|s| - 1];
      assert s == p + [x];
      DistinctMembers(p);
      assert forall i :: 0 <= i < |p| ==> s[i] == p[i];
    }
  }

  /** The result lists the values in the order of their first occurrence in `s`. */
  lemma {:induction false} DistinctOrder<T>(s: seq<T>)
    ensures InFirstSeenOrder(Distinct(s), s)
    decreases |s|
  {
    DistinctMembers(s);
    if |s| > 0 {
      var p, x := s[..|s| - 1], s[|s| - 1];
      assert s == p + [x];
      var q, r := Distinct(p), Distinct(s);
      DistinctMembers(p);
      DistinctOrder(p);
      FirstIndexSnoc(p, x);
      forall i, j | 0 <= i < j < |r|
        ensures FirstIndex(s, r[i]) < FirstIndex(s, r[j])
      {
        assert r[i] == q[i] && r[i] in p;
        if j < |q| {
          assert r[j] == q[j] && r[j] in p;
          assert FirstIndex(p, q[i]) < FirstIndex(p, q[j]);
        } else {
          assert r[j] == x && x !in p;
        }
      }
    }
  }

  /** Both halves together: no repeats, exactly the values of `s`, in first-seen order. */
  lemma DistinctSpec<T>(s: seq<T>)
    ensures NoDuplicates(Distinct(s))
    ensures forall i :: 0 <= i < |s| ==> s[i] in Distinct(s)
    ensures forall i :: 0 <= i < |Distinct(s)| ==> Distinct(s)[i] in s
    ensures InFirstSeenOrder(Distinct(s), s)
  {
    DistinctMembers(s);
    DistinctOrder(s);
  }

  /** A non-empty sequence holds its first element; stated as an implication so that the
      empty case can use it without a checked index. */
  lemma HeadIsMember<T>(s: seq<T>)
    ensures |s| > 0 ==> s[0] in s
  {
  }

  /** Two first-seen-ordered lists of the same values start with the same value. */
  lemma SameHead<T>(s: seq<T>, a: seq<T>, b: seq<T>)
    requires InFirstSeenOrder(a, s) && InFirstSeenOrder(b, s)
    requires forall x :: x in a <==> x in b
    requires |a| > 0
    ensures |b| > 0 && a[0] == b[0]
  {
    assert a[0] in b;
    var j :| 0 <= j < |b| && b[j] == a[0];
    assert b[0] in a;
    var i :| 0 <= i < |a| && a[i] == b[0];
    assert j == 0;
  }

  /** With equal heads, every later value of `a` is a later value of `b`. */
  lemma TailIncluded<T>(s: seq<T>, a: seq<T>, b: seq<T>)
    requires InFirstSeenOrder(a, s)
    requires forall x :: x in a ==> x in b
    requires |a| > 0 && |b| > 0 && a[0] == b[0]
    ensures forall x :: x in a[1..] ==> x in b[1..]
  {
    forall x | x in a[1..]
      ensures x in b[1..]
    {
      var k :| 1 <= k < |a| && a[k] == x;
      assert FirstIndex(s, a[0]) < FirstIndex(s, a[k]);
      assert a[k] in a;
      var l :| 0 <= l < |b| && b[l] == x;
      assert l != 0;
    }
  }

  /** Dropping the head keeps a first-seen-ordered list ordered. */
  lemma TailInOrder<T>(s: seq<T>, a: seq<T>)
    requires InFirstSeenOrder(a, s) && |a| > 0
    ensures InFirstSeenOrder(a[1..], s)
  {
  }

  /** Two sequences listing the same values, each in first-seen order of `s`, are equal. */
  lemma {:induction false} FirstSeenOrderUnique<T>(s: seq<T>, a: seq<T>, b: seq<T>)
    requires InFirstSeenOrder(a, s) && InFirstSeenOrder(b, s)
    requires forall x :: x in a <==> x in b
    ensures a == b
    decreases |a|
  {
    if |a| == 0 {
      HeadIsMember(b);
    } else {
      SameHead(s, a, b);
      TailIncluded(s, a, b);
      TailIncluded(s, b, a);
      TailInOrder(s, a);
      TailInOrder(s, b);
      FirstSeenOrderUnique(s, a[1..], b[1..]);
      assert a == [a[0]] + a[1..];
      assert b == [b[0]] + b[1..];
    }
  }

  /** `Distinct` is the only sequence of the values of `s` in first-seen order. */
  lemma DistinctCharacterised<T>(s: seq<T>, r: seq<T>)
    requires forall x :: x in r <==> x in s
    requires InFirstSeenOrder(r, s)
    ensures r == Distinct(s)
  {
    DistinctSpec(s);
    FirstSeenOrderUnique(s, r, Distinct(s));
  }

  /** A sequence without repeats is in its own first-seen order. */
  lemma OwnFirstSeenOrder<T>(d: seq<T>)
    requires NoDuplicates(d)
    ensures InFirstSeenOrder(d, d)
  {
  }

  /** Taking the distinct values twice changes nothing. */
  lemma {:induction false} DistinctIdempotent<T>(s: seq<T>)
    ensures Distinct(Distinct(s)) == Distinct(s)
  {
    var d := Distinct(s);
    var dd := Distinct(d);
    DistinctSpec(s);
    DistinctSpec(d);
    OwnFirstSeenOrder(d);
    assert forall x :: x in d ==> x in dd by {
      forall x | x in d
        ensures x in dd
      {
        var i :| 0 <= i < |d| && d[i] == x;
      }
    }
    FirstSeenOrderUnique(d, d, dd);
  }
}
