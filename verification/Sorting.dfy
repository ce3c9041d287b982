/**
  Orders and sorting, as the source uses them: Go's string order, a library sort taken as an
  insertion sort, and the sorted list of a set of keys.
*/
module Sorting {
  ghost predicate TotalOrder<T(!new)>(leq: (T, T) -> bool) {
    && (forall a :: leq(a, a))
    && (forall a, b :: leq(a, b) || leq(b, a))
    && (forall a, b :: leq(a, b) && leq(b, a) ==> a == b)
    && (forall a, b, c :: leq(a, b) && leq(b, c) ==> leq(a, c))
  }

  /** A total preorder: ties are allowed. */
  ghost predicate Preorder<T(!new)>(leq: (T, T) -> bool) {
    && (forall a, b :: leq(a, b) || leq(b, a))
    && (forall a, b, c :: leq(a, b) && leq(b, c) ==> leq(a, c))
  }

  ghost predicate SortedBy<T(!new)>(leq: (T, T) -> bool, s: seq<T>) {
    forall i, j :: 0 <= i < j < |s| ==> leq(s[i], s[j])
  }

  // ---------------------------------------------------------------- string order

  predicate StrLeq(a: string, b: string) {
    a == [] || (b != [] && (a[0] < b[0] || (a[0] == b[0] && StrLeq(a[1..], b[1..]))))
  }

  lemma {:induction false} StrLeqReflexive(a: string)
    ensures StrLeq(a, a)
  {
    if a != [] {
      StrLeqReflexive(a[1..]);
    }
  }

  lemma {:induction false} StrLeqTotal(a: string, b: string)
    ensures StrLeq(a, b) || StrLeq(b, a)
  {
    if a != [] && b != [] && a[0] == b[0] {
      StrLeqTotal(a[1..], b[1..]);
    }
  }

  lemma {:induction false} StrLeqAntisymmetric(a: string, b: string)
    requires StrLeq(a, b) && StrLeq(b, a)
    ensures a == b
  {
    if a != [] && b != [] {
      StrLeqAntisymmetric(a[1..], b[1..]);
      assert a == [a[0]] + a[1..] && b == [b[0]] + b[1..];
    }
  }

  lemma {:induction false} StrLeqTransitive(a: string, b: string, c: string)
    requires StrLeq(a, b) && StrLeq(b, c)
    ensures StrLeq(a, c)
  {
    if a != [] && a[0] == b[0] && b[0] == c[0] {
      StrLeqTransitive(a[1..], b[1..], c[1..]);
    }
  }

  lemma StringOrderIsTotal()
    ensures TotalOrder(StrLeq)
  {
    forall a ensures StrLeq(a, a) { StrLeqReflexive(a); }
    forall a, b ensures StrLeq(a, b) || StrLeq(b, a) { StrLeqTotal(a, b); }
    forall a, b | StrLeq(a, b) && StrLeq(b, a) ensures a == b { StrLeqAntisymmetric(a, b); }
    forall a, b, c | StrLeq(a, b) && StrLeq(b, c) ensures StrLeq(a, c) { StrLeqTransitive(a, b, c); }
  }

  // ---------------------------------------------------------------- sorting a list

  /** `x` goes before every element it is not after, so equal elements keep their order when a list
      is sorted from its front. */
  function Insert<T>(leq: (T, T) -> bool, s: seq<T>, x: T): seq<T> {
    if s == [] then [x]
    else if leq(s[|s| - 1], x) then s + [x]
    else Insert(leq, s[..|s| - 1], x) + [s[|s| - 1]]
  }

  function Sort<T>(leq: (T, T) -> bool, s: seq<T>): seq<T> {
    if s == [] then [] else Insert(leq, Sort(leq, s[..|s| - 1]), s[|s| - 1])
  }

  lemma {:induction false} InsertKeepsSorted<T(!new)>(leq: (T, T) -> bool, s: seq<T>, x: T)
    requires Preorder(leq) && SortedBy(leq, s)
    ensures SortedBy(leq, Insert(leq, s, x))
    ensures multiset(Insert(leq, s, x)) == multiset(s) + multiset{x}
  {
    if s != [] {
      var prev, last := s[..|s| - 1], s[|s| - 1];
      assert s == prev + [last];
      if !leq(last, x) {
        InsertKeepsSorted(leq, prev, x);
        var r := Insert(leq, prev, x);
        forall i | 0 <= i < |r|
          ensures leq(r[i], last)
        {
          assert r[i] in multiset(r);
          assert r[i] in prev || r[i] == x;
        }
      } else {
        forall i | 0 <= i < |s|
          ensures leq(s[i], x)
        {
          assert i < |s| - 1 ==> leq(s[i], last);
        }
      }
    }
  }

  lemma TotalIsPreorder<T(!new)>(leq: (T, T) -> bool)
    requires TotalOrder(leq)
    ensures Preorder(leq)
  {
  }

  lemma FrontAndLast<T>(s: seq<T>)
    requires s != []
    ensures s == s[..|s| - 1] + [s[|s| - 1]]
    ensures multiset(s) == multiset(s[..|s| - 1]) + multiset{s[|s| - 1]}
  {
    assert s == s[..|s| - 1] + [s[|s| - 1]];
  }

  lemma {:induction false} SortSorts<T(!new)>(leq: (T, T) -> bool, s: seq<T>)
    requires Preorder(leq)
    ensures SortedBy(leq, Sort(leq, s))
    ensures multiset(Sort(leq, s)) == multiset(s)
  {
    if s != [] {
      var prev := Sort(leq, s[..|s| - 1]);
      FrontAndLast(s);
      SortSorts(leq, s[..|s| - 1]);
      InsertKeepsSorted(leq, prev, s[|s| - 1]);
    }
  }

  lemma LastIsGreatest<T(!new)>(leq: (T, T) -> bool, s: seq<T>, x: T)
    requires s != [] && SortedBy(leq, s) && leq(s[|s| - 1], s[|s| - 1]) && x in multiset(s)
    ensures leq(x, s[|s| - 1])
  {
    var i :| 0 <= i < |s| && s[i] == x;
  }

  /** Under a total order a sorted list is determined by what it holds. */
  lemma {:induction false} SortedIsUnique<T(!new)>(leq: (T, T) -> bool, a: seq<T>, b: seq<T>)
    requires TotalOrder(leq)
    requires SortedBy(leq, a) && SortedBy(leq, b) && multiset(a) == multiset(b)
    ensures a == b
  {
    assert |a| == |multiset(a)| == |multiset(b)| == |b|;
    if a != [] {
      var n := |a| - 1;
      FrontAndLast(a);
      FrontAndLast(b);
      assert a[n] in multiset(b) && b[n] in multiset(a);
      LastIsGreatest(leq, a, b[n]);
      LastIsGreatest(leq, b, a[n]);
      assert a[n] == b[n];
      assert multiset(a[..n]) == multiset(a) - multiset{a[n]} == multiset(b) - multiset{b[n]} == multiset(b[..n]);
      SortedIsUnique(leq, a[..n], b[..n]);
    }
  }

  // ---------------------------------------------------------------- the sorted list of a set

  ghost predicate NoDuplicates<T(!new)>(s: seq<T>) {
    forall i, j :: 0 <= i < j < |s| ==> s[i] != s[j]
  }

  function ToSet<T>(s: seq<T>): set<T> {
    set x | x in s
  }

  /** `s` lists exactly `keys`, each once, in string order. */
  ghost predicate SortedListOf(s: seq<string>, keys: set<string>) {
    SortedBy(StrLeq, s) && NoDuplicates(s) && ToSet(s) == keys
  }

  lemma {:induction false} NoDuplicatesMultiset<T(!new)>(s: seq<T>)
    requires NoDuplicates(s)
    ensures multiset(s) == multiset(ToSet(s))
  {
    if s != [] {
      var prev, last := s[..|s| - 1], s[|s| - 1];
      assert s == prev + [last];
      NoDuplicatesMultiset(prev);
      assert last !in prev;
      assert ToSet(s) == ToSet(prev) + {last};
    }
  }

  lemma SortedListIsUnique(a: seq<string>, b: seq<string>, keys: set<string>)
    requires SortedListOf(a, keys) && SortedListOf(b, keys)
    ensures a == b
  {
    StringOrderIsTotal();
    NoDuplicatesMultiset(a);
    NoDuplicatesMultiset(b);
    SortedIsUnique(StrLeq, a, b);
  }

  lemma SortedListCount(s: seq<string>, keys: set<string>)
    requires SortedListOf(s, keys)
    ensures |s| == |keys|
  {
    NoDuplicatesMultiset(s);
    assert |s| == |multiset(s)| == |multiset(ToSet(s))| == |ToSet(s)|;
  }

  /** Collect the keys in no particular order, then sort them (sortedKeys, sortedSet). */
  method SortedKeys(keys: set<string>) returns (out: seq<string>)
    ensures SortedListOf(out, keys)
  {
    out := [];
    var todo := keys;
    while todo != {}
      invariant todo <= keys
      invariant ToSet(out) == keys - todo
      invariant NoDuplicates(out)
      decreases todo
    {
      var k :| k in todo;
      assert k !in ToSet(out);
      assert ToSet(out + [k]) == ToSet(out) + {k};
      out := out + [k];
      todo := todo - {k};
    }
    ghost var listed := out;
    StringOrderIsTotal();
    TotalIsPreorder(StrLeq);
    SortSorts(StrLeq, listed);
    out := Sort(StrLeq, out);
    PermutationKeepsDistinct(listed, out);
  }

  lemma {:induction false} CountedOnceIsDistinct<T(!new)>(s: seq<T>)
    requires forall x :: multiset(s)[x] <= 1
    ensures NoDuplicates(s)
  {
    if s != [] {
      var prev, last := s[..|s| - 1], s[|s| - 1];
      FrontAndLast(s);
      forall x
        ensures multiset(prev)[x] <= 1
      {
        assert multiset(s)[x] <= 1;
      }
      CountedOnceIsDistinct(prev);
      assert multiset(s)[last] <= 1;
      assert last !in multiset(prev);
    }
  }

  lemma PermutationKeepsDistinct<T(!new)>(a: seq<T>, b: seq<T>)
    requires NoDuplicates(a) && multiset(a) == multiset(b)
    ensures NoDuplicates(b) && ToSet(a) == ToSet(b)
  {
    NoDuplicatesMultiset(a);
    CountedOnceIsDistinct(b);
    forall x
      ensures x in a <==> x in b
    {
      assert x in multiset(a) <==> x in multiset(b);
    }
  }
}
