/** General facts about sequences that several parts of the pipeline state their results with. */
module Seqs {

  /** `a` is `b` with some elements left out, the rest kept in order. */
  ghost predicate IsSubsequence<T>(a: seq<T>, b: seq<T>)
    decreases |b|
  {
    if a == [] then true
    else if b == [] then false
    else (a[|a| - 1] == b[|b| - 1] && IsSubsequence(a[..|a| - 1], b[..|b| - 1]))
         || IsSubsequence(a, b[..|b| - 1])
  }

  /** Appending the same element to both sides, or only to the longer one, keeps a subsequence. */
  lemma SubsequenceExtend<T>(a: seq<T>, b: seq<T>, x: T)
    requires IsSubsequence(a, b)
    ensures IsSubsequence(a + [x], b + [x])
    ensures IsSubsequence(a, b + [x])
  {
    assert (a + [x])[..|a|] == a;
    assert (b + [x])[..|b|] == b;
  }

  lemma {:induction false} SubsequenceRefl<T>(s: seq<T>)
    ensures IsSubsequence(s, s)
    decreases |s|
  {
    if s != [] {
      SubsequenceRefl(s[..|s| - 1]);
    }
  }

  predicate NoDuplicates<T(==)>(s: seq<T>) {
    forall i, j :: 0 <= i < j < |s| ==> s[i] != s[j]
  }

  /** The position of the first occurrence of `x`. */
  function FirstIndex<T(==)>(s: seq<T>, x: T): (i: nat)
    requires x in s
    ensures i < |s| && s[i] == x && x !in s[..i]
  {
    if s[0] == x then 0
    else
      var k := FirstIndex(s[1..], x);
      assert s[..k + 1] == [s[0]] + s[1..][..k];
      k + 1
  }

  lemma FirstIndexExtend<T>(s: seq<T>, x: T, y: T)
    requires y in s
    ensures y in s + [x] && FirstIndex(s + [x], y) == FirstIndex(s, y)
  {
    var i := FirstIndex(s, y);
    var j := FirstIndex(s + [x], y);
    assert forall k :: 0 <= k < i ==> s[k] != y;
    assert forall k :: 0 <= k < j ==> (s + [x])[k] != y;
    assert (s + [x])[i] == y;
    assert j <= i;
    assert s[j] == (s + [x])[j];
  }

  /** Each element once, at the place of its first occurrence (the key order of a Python
      `Counter` or `dict` built from `s`). */
  function Distinct<T(==, !new)>(s: seq<T>): (r: seq<T>)
    ensures NoDuplicates(r)
    ensures forall x :: x in r <==> x in s
    decreases |s|
  {
    if s == [] then []
    else
      var d := Distinct(s[..|s| - 1]);
      var x := s[|s| - 1];
      assert s == s[..|s| - 1] + [x];
      if x in d then d else d + [x]
  }

  /** `Distinct` lists the elements in the order of their first occurrence. */
  lemma {:induction false} DistinctInFirstOccurrenceOrder<T(!new)>(s: seq<T>)
    ensures forall i, j :: 0 <= i < j < |Distinct(s)| ==>
      FirstIndex(s, Distinct(s)[i]) < FirstIndex(s, Distinct(s)[j])
    decreases |s|
  {
    if s != [] {
      var init := s[..|s| - 1];
      var x := s[|s| - 1];
      assert s == init + [x];
      DistinctInFirstOccurrenceOrder(init);
      var d := Distinct(init);
      forall y | y in init ensures FirstIndex(s, y) == FirstIndex(init, y) {
        FirstIndexExtend(init, x, y);
      }
      if x !in d {
        assert x !in init;
        assert FirstIndex(s, x) == |init| by {
          assert forall k :: 0 <= k < |init| ==> s[k] == init[k] && init[k] != x;
        }
        assert Distinct(s) == d + [x];
        forall i, j | 0 <= i < j < |d| + 1
          ensures FirstIndex(s, (d + [x])[i]) < FirstIndex(s, (d + [x])[j])
        {
          assert (d + [x])[i] == d[i] && d[i] in init;
          if j < |d| {
            assert (d + [x])[j] == d[j] && d[j] in init;
          } else {
            assert FirstIndex(init, d[i]) < |init|;
          }
        }
      } else {
        assert x in init;
        assert Distinct(s) == d;
        forall i, j | 0 <= i < j < |d| ensures FirstIndex(s, d[i]) < FirstIndex(s, d[j]) {
          assert d[i] in init && d[j] in init;
        }
      }
    }
  }

  lemma {:induction false} NoDuplicatesMultiset<T>(s: seq<T>)
    requires NoDuplicates(s)
    ensures forall x :: multiset(s)[x] <= 1
    decreases |s|
  {
    if s != [] {
      var init := s[..|s| - 1];
      var y := s[|s| - 1];
      assert s == init + [y];
      assert NoDuplicates(init);
      NoDuplicatesMultiset(init);
      assert y !in init by {
        assert forall k :: 0 <= k < |init| ==> init[k] == s[k] != s[|s| - 1];
      }
      assert multiset(s) == multiset(init) + multiset{y};
    }
  }

  /** A sub-multiset of a sequence without duplicates has none either. */
  lemma SubMultisetNoDuplicates<T>(a: seq<T>, b: seq<T>)
    requires NoDuplicates(b)
    requires multiset(a) <= multiset(b)
    ensures NoDuplicates(a)
  {
    NoDuplicatesMultiset(b);
    forall i, j | 0 <= i < j < |a| ensures a[i] != a[j] {
      assert a == a[..j] + a[j..];
      assert a[i] in a[..j];
      assert a[j] in a[j..];
      assert multiset(a)[a[i]] == multiset(a[..j])[a[i]] + multiset(a[j..])[a[i]];
      assert multiset(a)[a[j]] == multiset(a[..j])[a[j]] + multiset(a[j..])[a[j]];
      assert multiset(a)[a[i]] <= 1 && multiset(a)[a[j]] <= 1;
    }
  }

  /** The elements of `s` that `drop` does not reject, in order: a list comprehension with a
      condition. */
  function FilterOut<T>(s: seq<T>, drop: T -> bool): seq<T>
    decreases |s|
  {
    if s == [] then []
    else FilterOut(s[..|s| - 1], drop) + (if drop(s[|s| - 1]) then [] else [s[|s| - 1]])
  }

  /** `FilterOut` keeps the order and, with their multiplicity, exactly the elements not dropped. */
  lemma {:induction false} FilterOutSpec<T>(s: seq<T>, drop: T -> bool)
    ensures IsSubsequence(FilterOut(s, drop), s)
    ensures forall x :: multiset(FilterOut(s, drop))[x] == if drop(x) then 0 else multiset(s)[x]
    decreases |s|
  {
    if s != [] {
      var init := s[..|s| - 1];
      var last := s[|s| - 1];
      var f := FilterOut(init, drop);
      assert s == init + [last];
      FilterOutSpec(init, drop);
      SubsequenceExtend(f, init, last);
      if drop(last) {
        assert FilterOut(s, drop) == f;
      } else {
        assert FilterOut(s, drop) == f + [last];
        assert multiset(f + [last]) == multiset(f) + multiset{last};
      }
      assert multiset(s) == multiset(init) + multiset{last};
    }
  }

  lemma FilterOutMembers<T>(s: seq<T>, drop: T -> bool)
    ensures forall x :: x in FilterOut(s, drop) <==> x in s && !drop(x)
  {
    FilterOutSpec(s, drop);
    forall x ensures x in FilterOut(s, drop) <==> x in s && !drop(x) {
      assert x in FilterOut(s, drop) <==> multiset(FilterOut(s, drop))[x] > 0;
      assert x in s <==> multiset(s)[x] > 0;
    }
  }

  /** `FilterOut` never lengthens its input. */
  lemma {:induction false} FilterOutLength<T>(s: seq<T>, drop: T -> bool)
    ensures |FilterOut(s, drop)| <= |s|
    decreases |s|
  {
    if s != [] {
      FilterOutLength(s[..|s| - 1], drop);
    }
  }

  /** Nothing left after `FilterOut` is rejected, so a second pass changes nothing. */
  lemma {:induction false} FilterOutIdempotent<T>(s: seq<T>, drop: T -> bool)
    ensures FilterOut(FilterOut(s, drop), drop) == FilterOut(s, drop)
    decreases |s|
  {
    if s != [] {
      var init := s[..|s| - 1];
      var last := s[|s| - 1];
      var f := FilterOut(init, drop);
      FilterOutIdempotent(init, drop);
      if drop(last) {
        assert FilterOut(s, drop) == f;
      } else {
        assert FilterOut(s, drop) == f + [last];
        assert (f + [last])[..|f|] == f;
        assert FilterOut(f + [last], drop) == FilterOut(f, drop) + [last];
      }
    }
  }

  /** When nothing is rejected, `FilterOut` gives back its input. */
  lemma {:induction false} FilterOutKeepsAll<T>(s: seq<T>, drop: T -> bool)
    requires forall i :: 0 <= i < |s| ==> !drop(s[i])
    ensures FilterOut(s, drop) == s
    decreases |s|
  {
    if s != [] {
      var init := s[..|s| - 1];
      FilterOutKeepsAll(init, drop);
      assert s == init + [s[|s| - 1]];
    }
  }

  /** When everything is rejected, `FilterOut` leaves nothing. */
  lemma {:induction false} FilterOutDropsAll<T>(s: seq<T>, drop: T -> bool)
    requires forall i :: 0 <= i < |s| ==> drop(s[i])
    ensures FilterOut(s, drop) == []
    decreases |s|
  {
    if s != [] {
      FilterOutDropsAll(s[..|s| - 1], drop);
    }
  }

  /** Filtering by a condition and by its negation splits a sequence in two. */
  lemma {:induction false} FilterOutPartition<T>(s: seq<T>, drop: T -> bool, keep: T -> bool)
    requires forall x :: keep(x) == !drop(x)
    ensures multiset(FilterOut(s, drop)) + multiset(FilterOut(s, keep)) == multiset(s)
    decreases |s|
  {
    if s != [] {
      var init := s[..|s| - 1];
      var last := s[|s| - 1];
      assert s == init + [last];
      FilterOutPartition(init, drop, keep);
    }
  }

  /** Filtering by a test and by its negation splits `s` into two subsequences that together hold
      every element once. */
  lemma FilterSplit<T>(s: seq<T>, drop: T -> bool, keep: T -> bool)
    requires forall x :: keep(x) == !drop(x)
    ensures IsSubsequence(FilterOut(s, drop), s) && IsSubsequence(FilterOut(s, keep), s)
    ensures multiset(FilterOut(s, drop)) + multiset(FilterOut(s, keep)) == multiset(s)
    ensures |FilterOut(s, drop)| + |FilterOut(s, keep)| == |s|
    ensures forall x :: x in FilterOut(s, drop) <==> x in s && !drop(x)
    ensures forall x :: x in FilterOut(s, keep) <==> x in s && !keep(x)
  {
    FilterOutSpec(s, drop);
    FilterOutSpec(s, keep);
    FilterOutMembers(s, drop);
    FilterOutMembers(s, keep);
    FilterOutPartition(s, drop, keep);
    assert |multiset(FilterOut(s, drop)) + multiset(FilterOut(s, keep))| == |multiset(s)|;
  }
}
