// Stable sorting by a key, and what "the n closest" means. Both are stated for
// any distance function d, and used with the XOR distance to a target.
module Closest {

  function Min(a: nat, b: nat): nat {
    if a <= b then a else b
  }

  function Elems<T>(s: seq<T>): set<T> {
    set x | x in s
  }

  lemma EmptyElems<T>(s: seq<T>)
    ensures Elems(s) == {} <==> s == []
  {
    if s != [] {
      assert s[0] in Elems(s);
    }
  }

  ghost predicate NoDup<T>(s: seq<T>) {
    forall i, j | 0 <= i < j < |s| :: s[i] != s[j]
  }

  lemma {:induction false} NoDupCardinality<T>(s: seq<T>)
    requires NoDup(s)
    ensures |Elems(s)| == |s|
  {
    if s != [] {
      ElemsButLast(s);
      NoDupCardinality(s[..|s| - 1]);
    }
  }

  lemma ElemsButLast<T>(s: seq<T>)
    requires s != [] && NoDup(s)
    ensures Elems(s[..|s| - 1]) == Elems(s) - {s[|s| - 1]}
  {
  }

  lemma ElemsOfSum<T>(a: seq<T>, b: seq<T>)
    ensures Elems(a + b) == Elems(a) + Elems(b)
  {
  }

  lemma FromNone<T>(a: seq<T>)
    ensures [] + a == a && Elems<T>([]) == {}
  {
  }

  lemma Regroup<T>(a: seq<T>, b: seq<T>, c: seq<T>)
    ensures a + (b + c) == (a + b) + c
    ensures a + [] == a
  {
  }

  // ----- the stable sort of the standard library -----

  ghost predicate SortedBy<T>(s: seq<T>, d: T -> nat) {
    forall i, j | 0 <= i < j < |s| :: d(s[i]) <= d(s[j])
  }

  function InsertAfterEqual<T>(s: seq<T>, x: T, d: T -> nat): (r: seq<T>)
    ensures |r| == |s| + 1
  {
    if s == [] || d(s[|s| - 1]) <= d(x) then s + [x]
    else InsertAfterEqual(s[..|s| - 1], x, d) + [s[|s| - 1]]
  }

  function StableSort<T>(s: seq<T>, d: T -> nat): (r: seq<T>)
    ensures |r| == |s|
  {
    if s == [] then [] else InsertAfterEqual(StableSort(s[..|s| - 1], d), s[|s| - 1], d)
  }

  lemma {:induction false} InsertKeeps<T>(s: seq<T>, x: T, d: T -> nat)
    ensures multiset(InsertAfterEqual(s, x, d)) == multiset(s) + multiset{x}
  {
    if s != [] && d(s[|s| - 1]) > d(x) {
      InsertKeeps(s[..|s| - 1], x, d);
      assert s == s[..|s| - 1] + [s[|s| - 1]];
    }
  }

  lemma {:induction false} InsertSorts<T>(s: seq<T>, x: T, d: T -> nat)
    requires SortedBy(s, d)
    ensures SortedBy(InsertAfterEqual(s, x, d), d)
  {
    if s != [] && d(s[|s| - 1]) > d(x) {
      var p, l := s[..|s| - 1], s[|s| - 1];
      InsertSorts(p, x, d);
      InsertKeeps(p, x, d);
      var r := InsertAfterEqual(p, x, d);
      forall i | 0 <= i < |r|
        ensures d(r[i]) <= d(l)
      {
        assert r[i] in multiset(r);
        assert r[i] in p || r[i] == x;
      }
    }
  }

  lemma {:induction false} SortSorts<T>(s: seq<T>, d: T -> nat)
    ensures SortedBy(StableSort(s, d), d)
    ensures multiset(StableSort(s, d)) == multiset(s)
  {
    if s != [] {
      var p, l := s[..|s| - 1], s[|s| - 1];
      SortSorts(p, d);
      InsertSorts(StableSort(p, d), l, d);
      InsertKeeps(StableSort(p, d), l, d);
      assert s == p + [l];
    }
  }

  lemma SameMultisetSameElems<T>(a: seq<T>, b: seq<T>)
    requires multiset(a) == multiset(b)
    ensures Elems(a) == Elems(b)
  {
    forall x
      ensures x in a <==> x in b
    {
      assert x in multiset(a) <==> x in multiset(b);
    }
  }

  lemma SameMultisetNoDup<T>(a: seq<T>, b: seq<T>)
    requires multiset(a) == multiset(b) && NoDup(a)
    ensures NoDup(b)
  {
    NoDupCounts(a);
    forall i, j | 0 <= i < j < |b|
      ensures b[i] != b[j]
    {
      assert b == b[..i] + [b[i]] + b[i + 1..j] + [b[j]] + b[j + 1..];
      assert multiset(b)[b[i]] <= 1;
    }
  }

  lemma {:induction false} NoDupCounts<T>(s: seq<T>)
    requires NoDup(s)
    ensures forall x :: multiset(s)[x] <= 1
  {
    if s != [] {
      var p, l := s[..|s| - 1], s[|s| - 1];
      assert s == p + [l];
      NoDupCounts(p);
      assert l !in p;
    }
  }

  // ----- the n closest -----

  ghost predicate Increasing<T>(s: seq<T>, d: T -> nat) {
    forall i, j | 0 <= i < j < |s| :: d(s[i]) < d(s[j])
  }

  // No two members of s are equally far.
  ghost predicate NoTies<T>(s: set<T>, d: T -> nat) {
    forall x, y | x in s && y in s && d(x) == d(y) :: x == y
  }

  // r is the n closest members of s, nearest first.
  ghost predicate ClosestOf<T>(r: seq<T>, s: set<T>, d: T -> nat, n: nat) {
    && Increasing(r, d)
    && |r| == Min(n, |s|)
    && Elems(r) <= s
    && (forall x, y | x in s && x !in r && y in r :: d(y) < d(x))
  }

  lemma IncreasingNoDup<T>(s: seq<T>, d: T -> nat)
    requires Increasing(s, d)
    ensures NoDup(s)
    ensures |Elems(s)| == |s|
  {
    assert forall i, j | 0 <= i < j < |s| :: d(s[i]) < d(s[j]) ==> s[i] != s[j];
    NoDupCardinality(s);
  }

  lemma SameLast<T>(a: seq<T>, b: seq<T>, d: T -> nat)
    requires Increasing(a, d) && Increasing(b, d)
    requires Elems(a) == Elems(b) && a != [] && b != []
    ensures a[|a| - 1] == b[|b| - 1]
  {
    var x, y := a[|a| - 1], b[|b| - 1];
    assert x in Elems(b) && y in Elems(a);
    var k :| 0 <= k < |b| && b[k] == x;
    var m :| 0 <= m < |a| && a[m] == y;
    assert d(x) <= d(y) <= d(x);
    assert k == |b| - 1;
  }

  lemma {:induction false} IncreasingUnique<T>(a: seq<T>, b: seq<T>, d: T -> nat)
    requires Increasing(a, d) && Increasing(b, d)
    requires Elems(a) == Elems(b)
    ensures a == b
  {
    IncreasingNoDup(a, d);
    IncreasingNoDup(b, d);
    if a != [] {
      SameLast(a, b, d);
      ElemsButLast(a);
      ElemsButLast(b);
      var p, q := a[..|a| - 1], b[..|b| - 1];
      IncreasingUnique(p, q, d);
      assert a == p + [a[|a| - 1]] && b == q + [b[|b| - 1]];
    }
  }

  // There is only one list of the n closest.
  lemma ClosestUnique<T>(a: seq<T>, b: seq<T>, s: set<T>, d: T -> nat, n: nat)
    requires ClosestOf(a, s, d, n) && ClosestOf(b, s, d, n)
    ensures a == b
  {
    IncreasingNoDup(a, d);
    IncreasingNoDup(b, d);
    if Elems(a) == Elems(b) {
      IncreasingUnique(a, b, d);
    } else {
      var x := InOneOnly(Elems(a), Elems(b));
      var y := InOneOnly(Elems(b), Elems(a));
      assert false;
    }
  }

  lemma InOneOnly<T>(a: set<T>, b: set<T>) returns (x: T)
    requires |a| == |b| && a != b
    ensures x in a && x !in b
  {
    assert a <= b ==> b == a + (b - a);
    x :| x in a && x !in b;
  }

  lemma SubsetSize<T>(a: set<T>, b: set<T>)
    requires a <= b
    ensures |a| <= |b|
    ensures |a| == |b| ==> a == b
  {
    assert b == a + (b - a);
  }

  // The first n of a strictly sorted list are the n closest of its members.
  lemma PrefixIsClosest<T>(s: seq<T>, d: T -> nat, n: nat)
    requires Increasing(s, d)
    ensures ClosestOf(s[..Min(n, |s|)], Elems(s), d, n)
  {
    IncreasingNoDup(s, d);
    var m := Min(n, |s|);
    var r := s[..m];
    forall x, y | x in Elems(s) && x !in r && y in r
      ensures d(y) < d(x)
    {
      var i :| 0 <= i < |s| && s[i] == x;
      var j :| 0 <= j < m && s[j] == y;
      assert forall k | 0 <= k < m :: s[k] in r;
    }
  }

  // As sets: n members, closer than all others.
  lemma FrontBeforeRest<T>(s: seq<T>, n: nat, d: T -> nat)
    requires n <= |s| && Increasing(s, d)
    ensures Elems(s[..n]) <= Elems(s) && |Elems(s[..n])| == n
    ensures forall m, y | m in Elems(s[..n]) && y in Elems(s) && y !in Elems(s[..n]) :: d(m) < d(y)
  {
    PrefixIsClosest(s, d, n);
    IncreasingNoDup(s[..n], d);
  }

  // Sorting without ties is strict and loses nothing.
  lemma SortIncreasing<T>(s: seq<T>, d: T -> nat)
    requires NoDup(s) && NoTies(Elems(s), d)
    ensures Increasing(StableSort(s, d), d)
    ensures Elems(StableSort(s, d)) == Elems(s)
  {
    var r := StableSort(s, d);
    SortSorts(s, d);
    SameMultisetSameElems(r, s);
    SameMultisetNoDup(s, r);
    forall i, j | 0 <= i < j < |r|
      ensures d(r[i]) < d(r[j])
    {
      assert r[i] in Elems(s) && r[j] in Elems(s);
    }
  }

  // The closest n of s are also the closest n of a larger set when every
  // newcomer is farther than all of them.
  lemma ClosestOfLarger<T>(r: seq<T>, s: set<T>, u: set<T>, d: T -> nat, n: nat)
    requires s <= u && ClosestOf(r, s, d, n)
    requires |s| >= n || s == u
    requires forall x, y | x in u && x !in s && y in r :: d(y) < d(x)
    ensures ClosestOf(r, u, d, n)
  {
    SubsetSize(s, u);
  }

  // Growing the candidates changes the n closest exactly when a newcomer gets in.
  lemma ClosestAfterGrowth<T>(a: seq<T>, b: seq<T>, s: set<T>, u: set<T>, d: T -> nat, n: nat)
    requires s <= u
    requires ClosestOf(a, s, d, n) && ClosestOf(b, u, d, n)
    ensures a == b <==> Elems(b) <= s
  {
    if Elems(b) <= s {
      IncreasingNoDup(b, d);
      SubsetSize(Elems(b), s);
      SubsetSize(s, u);
      ClosestUnique(a, b, s, d, n);
    }
  }

  // Every member of r is closer than every member of s.
  ghost predicate CloserThan<T>(r: seq<T>, s: set<T>, d: T -> nat) {
    forall x, y | x in s && y in r :: d(y) < d(x)
  }

  // The n closest of one set are the n closest of another if and only if they
  // belong to it and nothing it has beside the first set comes before them.
  lemma ClosestOfOther<T>(r: seq<T>, s: set<T>, u: set<T>, d: T -> nat, n: nat)
    requires ClosestOf(r, s, d, n)
    ensures ClosestOf(r, u, d, n) <==> Elems(r) <= u && (u - s == {} || (|r| == n && CloserThan(r, u - s, d)))
  {
    IncreasingNoDup(r, d);
    if ClosestOf(r, u, d, n) {
      if |r| < n {
        SubsetSize(Elems(r), u);
      }
    } else if Elems(r) <= u {
      SubsetSize(Elems(r), u);
      if u - s == {} {
        assert forall x | x in u :: x in s || x in u - s;
        SubsetSize(u, s);
      }
    }
  }

  // The members of s closer than all of lost.
  ghost function AheadOf<T>(s: set<T>, lost: set<T>, d: T -> nat): set<T> {
    set x | x in s && forall y | y in lost :: d(x) < d(y)
  }

  // Two sets have the same n closest if and only if they are equal, or n common
  // members are closer than everything in which they differ.
  lemma SameClosestIff<T>(r: seq<T>, s: set<T>, u: set<T>, d: T -> nat, n: nat)
    requires ClosestOf(r, s, d, n)
    ensures var lost := (u - s) + (s - u);
            ClosestOf(r, u, d, n) <==> lost == {} || |AheadOf(s, lost, d)| >= n
  {
    var lost := (u - s) + (s - u);
    var ahead := AheadOf(s, lost, d);
    if lost == {} {
      SameSets(s, u);
    } else {
      if ClosestOf(r, u, d, n) {
        ClosestAreAhead(r, s, u, d, n);
      }
      if |ahead| >= n {
        AheadStay(r, s, u, d, n);
      }
    }
  }

  lemma SameSets<T>(s: set<T>, u: set<T>)
    requires (u - s) + (s - u) == {}
    ensures s == u
  {
    forall x
      ensures x in s <==> x in u
    {
      assert x !in (u - s) + (s - u);
    }
  }

  lemma ClosestAreAhead<T>(r: seq<T>, s: set<T>, u: set<T>, d: T -> nat, n: nat)
    requires ClosestOf(r, s, d, n) && ClosestOf(r, u, d, n) && (u - s) + (s - u) != {}
    ensures |AheadOf(s, (u - s) + (s - u), d)| >= n
  {
    IncreasingNoDup(r, d);
    SubsetSize(Elems(r), s);
    SubsetSize(Elems(r), u);
    SubsetSize(Elems(r), AheadOf(s, (u - s) + (s - u), d));
  }

  lemma AheadStay<T>(r: seq<T>, s: set<T>, u: set<T>, d: T -> nat, n: nat)
    requires ClosestOf(r, s, d, n) && |AheadOf(s, (u - s) + (s - u), d)| >= n
    ensures ClosestOf(r, u, d, n)
  {
    var ahead := AheadOf(s, (u - s) + (s - u), d);
    AheadIsFront(s, (u - s) + (s - u), d);
    SubsetSize(ahead, s);
    ClosestWithin(r, s, ahead, d, n);
    ClosestOfOther(r, s, u, d, n);
  }

  lemma AheadIsFront<T>(s: set<T>, lost: set<T>, d: T -> nat)
    ensures forall z, y | z in AheadOf(s, lost, d) && y in s && y !in AheadOf(s, lost, d) :: d(z) < d(y)
  {
    forall z, y | z in AheadOf(s, lost, d) && y in s && y !in AheadOf(s, lost, d)
      ensures d(z) < d(y)
    {
      var w :| w in lost && d(w) <= d(y);
      assert d(z) < d(w);
    }
  }

  // The n closest lie in a part if and only if the part is everything, or n of
  // its members are closer than all the rest.
  lemma ClosestInPartIff<T>(r: seq<T>, s: set<T>, part: set<T>, d: T -> nat, n: nat)
    requires ClosestOf(r, s, d, n) && part <= s
    ensures Elems(r) <= part <==> s - part == {} || |AheadOf(part, s - part, d)| >= n
  {
    ClosestOfOther(r, s, part, d, n);
    SameClosestIff(r, s, part, d, n);
    assert (part - s) + (s - part) == s - part;
    if s - part == {} {
      assert forall x | x in s :: x in part || x in s - part;
    } else {
      AheadInPart(s, part, d);
    }
  }

  lemma AheadInPart<T>(s: set<T>, part: set<T>, d: T -> nat)
    requires part <= s
    ensures AheadOf(s, s - part, d) == AheadOf(part, s - part, d)
  {
    forall x | x in AheadOf(s, s - part, d)
      ensures x in part
    {
      assert x in s - part ==> d(x) < d(x);
    }
  }

  // A member of a subset that is among the n closest of the whole set is among
  // the n closest of the subset.
  lemma ClosestOfSubset<T>(front: seq<T>, s: set<T>, r: seq<T>, u: set<T>, d: T -> nat, n: nat, x: T)
    requires ClosestOf(front, s, d, n) && ClosestOf(r, u, d, n) && u <= s && x in front && x in u
    ensures x in r
  {
    IncreasingNoDup(front, d);
    IncreasingNoDup(r, d);
    if x !in r {
      SubsetSize(Elems(r), u - {x});
      SubsetSize(u - {x}, u);
      var z := Escapes(Elems(front), Elems(r), x);
      assert false;
    }
  }

  // Behind n members of s, all of them in s, nothing is among the n closest.
  lemma BehindFullFront<T>(nodes: seq<T>, n: nat, d: T -> nat, r: seq<T>, s: set<T>, x: T)
    requires Increasing(nodes, d) && ClosestOf(r, s, d, n) && Elems(nodes[..Min(n, |nodes|)]) <= s
    requires x in nodes && x in r
    ensures x in nodes[..Min(n, |nodes|)]
  {
    var front := nodes[..Min(n, |nodes|)];
    PrefixIsClosest(nodes, d, n);
    IncreasingNoDup(front, d);
    IncreasingNoDup(r, d);
    if x !in front {
      assert front != nodes;
      var z := Escapes(Elems(r), Elems(front), x);
      assert false;
    }
  }

  // If n members are closer than all others, the n closest are among them.
  lemma ClosestWithin<T>(r: seq<T>, s: set<T>, near: set<T>, d: T -> nat, n: nat)
    requires ClosestOf(r, s, d, n) && near <= s && |near| >= n
    requires forall z, y | z in near && y in s && y !in near :: d(z) < d(y)
    ensures Elems(r) <= near
  {
    IncreasingNoDup(r, d);
    forall y | y in r
      ensures y in near
    {
      if y !in near {
        var z := Escapes(Elems(r), near, y);
        assert false;
      }
    }
  }

  lemma Escapes<T>(a: set<T>, b: set<T>, y: T) returns (z: T)
    requires |a| <= |b| && y in a && y !in b
    ensures z in b && z !in a
  {
    if b <= a {
      SubsetSize(b, a - {y});
    }
    z :| z in b && z !in a;
  }

  // If a picked candidate did not make it into the n closest, no candidate that
  // was not picked did.
  lemma NoCandidateIn<T>(r: seq<T>, s: set<T>, n: nat, picks: seq<T>, cand: set<T>, a: nat, d: T -> nat, p: T)
    requires ClosestOf(r, s, d, n) && ClosestOf(picks, cand, d, a)
    requires p in picks && p in s && p !in r
    ensures forall u | u in r :: u in picks || u !in cand
  {
    forall u | u in r
      ensures u in picks || u !in cand
    {
      assert d(u) < d(p);
    }
  }

  // A sorted list of at most n members that either holds each of the n closest
  // or is full of closer ones is the list of the n closest.
  lemma ClosestIfNoneMissing<T>(r: seq<T>, top: seq<T>, s: set<T>, d: T -> nat, n: nat)
    requires ClosestOf(top, s, d, n) && Increasing(r, d) && Elems(r) <= s && |r| <= n
    requires forall y | y in top :: y in r || (|r| == n && forall z | z in r :: d(z) < d(y))
    ensures r == top
  {
    IncreasingNoDup(r, d);
    IncreasingNoDup(top, d);
    forall y | y in top
      ensures y in r
    {
      if y !in r {
        assert Elems(r) <= Elems(top) - {y};
        SubsetSize(Elems(r), Elems(top) - {y});
        assert false;
      }
    }
    SubsetSize(Elems(top), Elems(r));
    SubsetSize(Elems(r), s);
    IncreasingUnique(r, top, d);
  }

  // ----- filtering -----

  function Select<T>(s: seq<T>, p: T -> bool): (r: seq<T>)
    ensures |r| <= |s|
  {
    if s == [] then []
    else if p(s[|s| - 1]) then Select(s[..|s| - 1], p) + [s[|s| - 1]]
    else Select(s[..|s| - 1], p)
  }

  function Take<T>(s: seq<T>, n: nat): seq<T> {
    s[..Min(n, |s|)]
  }

  lemma {:induction false} SelectElems<T>(s: seq<T>, p: T -> bool)
    ensures forall x | x in Select(s, p) :: x in s && p(x)
    ensures forall x | x in s && p(x) :: x in Select(s, p)
  {
    if s != [] {
      SelectElems(s[..|s| - 1], p);
      assert s == s[..|s| - 1] + [s[|s| - 1]];
    }
  }

  lemma {:induction false} SelectIncreasing<T>(s: seq<T>, p: T -> bool, d: T -> nat)
    requires Increasing(s, d)
    ensures Increasing(Select(s, p), d)
  {
    if s != [] {
      var q := s[..|s| - 1];
      SelectIncreasing(q, p, d);
      SelectElems(q, p);
      var r := Select(q, p);
      forall i | 0 <= i < |r|
        ensures d(r[i]) < d(s[|s| - 1])
      {
        assert r[i] in r;
        assert r[i] in q;
      }
    }
  }
}
