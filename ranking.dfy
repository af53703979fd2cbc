/**
 * Python's stable descending sort on a real-valued key (`sorted(..., key=..., reverse=True)`,
 * `list.sort(reverse=True)` and `Counter.most_common`), modelled on (item, score) pairs by insertion
 * sort, and the "top n" slice after it.  Python's sort is stable also with `reverse=True`: items
 * with equal scores keep the order they arrived in.
 */
module Ranking {

  type Scored<T> = (T, real)

  /** Scores never increase along the sequence. */
  predicate SortedDesc<T>(s: seq<Scored<T>>) {
    forall i, j :: 0 <= i < j < |s| ==> s[i].1 >= s[j].1
  }

  /** Puts `x` after every element of `l` scoring at least as much, and before the strictly lower
      ones at the end of `l`. */
  function Insert<T>(l: seq<Scored<T>>, x: Scored<T>): (r: seq<Scored<T>>)
    ensures |r| == |l| + 1
    decreases |l|
  {
    if l == [] || l[|l| - 1].1 >= x.1 then l + [x]
    else Insert(l[..|l| - 1], x) + [l[|l| - 1]]
  }

  /** The stable descending sort by score. */
  function SortDesc<T>(s: seq<Scored<T>>): (r: seq<Scored<T>>)
    ensures |r| == |s|
    decreases |s|
  {
    if s == [] then [] else Insert(SortDesc(s[..|s| - 1]), s[|s| - 1])
  }

  /** The elements scoring exactly `c`, in order. */
  function WithKey<T>(s: seq<Scored<T>>, c: real): seq<Scored<T>>
    decreases |s|
  {
    if s == [] then []
    else WithKey(s[..|s| - 1], c) + (if s[|s| - 1].1 == c then [s[|s| - 1]] else [])
  }

  /** The items, without their scores. */
  function Keys<T>(s: seq<Scored<T>>): (r: seq<T>)
    ensures |r| == |s| && forall i :: 0 <= i < |s| ==> r[i] == s[i].0
  {
    seq(|s|, i requires 0 <= i < |s| => s[i].0)
  }

  /** Each item paired with its score, in order. */
  function ScoreBy<T>(xs: seq<T>, score: T -> real): (r: seq<Scored<T>>)
    ensures |r| == |xs| && forall i :: 0 <= i < |xs| ==> r[i] == (xs[i], score(xs[i]))
  {
    seq(|xs|, i requires 0 <= i < |xs| => (xs[i], score(xs[i])))
  }

  /** Scoring one more item appends its pair. */
  lemma ScoreByNext<T>(xs: seq<T>, score: T -> real, i: nat)
    requires i < |xs|
    ensures ScoreBy(xs[..i + 1], score) == ScoreBy(xs[..i], score) + [(xs[i], score(xs[i]))]
  {
  }

  lemma KeysScoreBy<T>(xs: seq<T>, score: T -> real)
    ensures Keys(ScoreBy(xs, score)) == xs
  {
  }

  /** `sorted(xs, key=..., reverse=True)[:n]` on scored pairs. */
  function Top<T>(s: seq<Scored<T>>, n: nat): seq<Scored<T>> {
    var sorted := SortDesc(s);
    if n < |sorted| then sorted[..n] else sorted
  }

  lemma {:induction false} InsertMultiset<T>(l: seq<Scored<T>>, x: Scored<T>)
    ensures multiset(Insert(l, x)) == multiset(l) + multiset{x}
    decreases |l|
  {
    if l != [] && l[|l| - 1].1 < x.1 {
      var init := l[..|l| - 1];
      InsertMultiset(init, x);
      assert l == init + [l[|l| - 1]];
    }
  }

  lemma {:induction false} InsertKeys<T>(l: seq<Scored<T>>, x: Scored<T>)
    ensures multiset(Keys(Insert(l, x))) == multiset(Keys(l)) + multiset{x.0}
    decreases |l|
  {
    if l == [] || l[|l| - 1].1 >= x.1 {
      assert Keys(l + [x]) == Keys(l) + [x.0];
    } else {
      var init := l[..|l| - 1];
      var last := l[|l| - 1];
      InsertKeys(init, x);
      assert Keys(Insert(init, x) + [last]) == Keys(Insert(init, x)) + [last.0];
      assert Keys(l) == Keys(init) + [last.0];
    }
  }

  lemma {:induction false} SortKeys<T>(s: seq<Scored<T>>)
    ensures multiset(Keys(SortDesc(s))) == multiset(Keys(s))
    decreases |s|
  {
    if s != [] {
      var init := s[..|s| - 1];
      SortKeys(init);
      InsertKeys(SortDesc(init), s[|s| - 1]);
      assert Keys(s) == Keys(init) + [s[|s| - 1].0];
    }
  }

  /** The items kept are drawn from the input's items, each at most as often. */
  lemma TopKeys<T>(s: seq<Scored<T>>, n: nat)
    ensures multiset(Keys(Top(s, n))) <= multiset(Keys(s))
  {
    TopPrefix(s, n);
    SortKeys(s);
    var sorted := SortDesc(s);
    var k := |Top(s, n)|;
    assert Keys(sorted) == Keys(sorted[..k]) + Keys(sorted[k..]);
  }

  lemma {:induction false} InsertSorted<T>(l: seq<Scored<T>>, x: Scored<T>)
    requires SortedDesc(l)
    ensures SortedDesc(Insert(l, x))
    decreases |l|
  {
    if l != [] && l[|l| - 1].1 < x.1 {
      var init := l[..|l| - 1];
      var last := l[|l| - 1];
      InsertSorted(init, x);
      InsertMultiset(init, x);
      var m := Insert(init, x);
      forall i | 0 <= i < |m| ensures m[i].1 >= last.1 {
        assert m[i] in multiset(init) + multiset{x};
        if m[i] != x {
          assert m[i] in init;
        }
      }
    }
  }

  lemma {:induction false} WithKeyInsert<T>(l: seq<Scored<T>>, x: Scored<T>, c: real)
    ensures WithKey(Insert(l, x), c) == WithKey(l, c) + (if x.1 == c then [x] else [])
    decreases |l|
  {
    if l == [] || l[|l| - 1].1 >= x.1 {
      assert (l + [x])[..|l|] == l;
    } else {
      var init := l[..|l| - 1];
      var last := l[|l| - 1];
      WithKeyInsert(init, x, c);
      assert (Insert(init, x) + [last])[..|Insert(init, x)|] == Insert(init, x);
    }
  }

  /** Sorting keeps, for every score, the elements with that score in their original order. */
  lemma {:induction false} SortStable<T>(s: seq<Scored<T>>, c: real)
    ensures WithKey(SortDesc(s), c) == WithKey(s, c)
    decreases |s|
  {
    if s != [] {
      SortStable(s[..|s| - 1], c);
      WithKeyInsert(SortDesc(s[..|s| - 1]), s[|s| - 1], c);
    }
  }

  lemma {:induction false} SortSorted<T>(s: seq<Scored<T>>)
    ensures SortedDesc(SortDesc(s))
    decreases |s|
  {
    if s != [] {
      SortSorted(s[..|s| - 1]);
      InsertSorted(SortDesc(s[..|s| - 1]), s[|s| - 1]);
    }
  }

  lemma {:induction false} SortPermutes<T>(s: seq<Scored<T>>)
    ensures multiset(SortDesc(s)) == multiset(s)
    decreases |s|
  {
    if s != [] {
      var init := s[..|s| - 1];
      SortPermutes(init);
      InsertMultiset(SortDesc(init), s[|s| - 1]);
      assert s == init + [s[|s| - 1]];
    }
  }

  /** Sorting orders by score and only rearranges. */
  lemma SortSpec<T>(s: seq<Scored<T>>)
    ensures SortedDesc(SortDesc(s))
    ensures multiset(SortDesc(s)) == multiset(s)
  {
    SortSorted(s);
    SortPermutes(s);
  }

  lemma {:induction false} WithKeyPrefix<T>(s: seq<Scored<T>>, k: nat, c: real)
    requires k <= |s|
    ensures WithKey(s[..k], c) <= WithKey(s, c)
    decreases |s|
  {
    if k < |s| {
      var init := s[..|s| - 1];
      assert s[..k] == init[..k];
      WithKeyPrefix(init, k, c);
    } else {
      assert s[..k] == s;
    }
  }

  /** A sort by descending score splits into a head and a tail where nothing in the tail scores
      more than anything in the head. */
  lemma SortedSplit<T>(sorted: seq<Scored<T>>, k: nat)
    requires SortedDesc(sorted) && k <= |sorted|
    ensures forall p, q :: p in sorted[..k] && q in sorted[k..] ==> q.1 <= p.1
  {
    forall p, q | p in sorted[..k] && q in sorted[k..] ensures q.1 <= p.1 {
      var i :| 0 <= i < k && sorted[..k][i] == p;
      var j :| 0 <= j < |sorted| - k && sorted[k..][j] == q;
      assert sorted[i] == p && sorted[k + j] == q;
    }
  }

  /** `Top` is a prefix of the sorted sequence, of length `min(n, |s|)`. */
  lemma TopPrefix<T>(s: seq<Scored<T>>, n: nat)
    ensures |Top(s, n)| == if n < |s| then n else |s|
    ensures Top(s, n) == SortDesc(s)[..|Top(s, n)|]
  {
    var sorted := SortDesc(s);
    if n >= |sorted| {
      assert sorted[..|sorted|] == sorted;
    }
  }

  lemma TopRest<T>(s: seq<Scored<T>>, n: nat)
    ensures multiset(Top(s, n)) <= multiset(s)
    ensures forall p, q :: p in Top(s, n) && q in multiset(s) - multiset(Top(s, n)) ==> q.1 <= p.1
  {
    var sorted := SortDesc(s);
    SortSpec(s);
    TopPrefix(s, n);
    var k := |Top(s, n)|;
    var r := sorted[..k];
    assert multiset(s) - multiset(r) == multiset(sorted[k..]) by {
      assert sorted == r + sorted[k..];
    }
    SortedSplit(sorted, k);
  }

  lemma TopStable<T>(s: seq<Scored<T>>, n: nat, c: real)
    ensures WithKey(Top(s, n), c) <= WithKey(s, c)
  {
    TopPrefix(s, n);
    WithKeyPrefix(SortDesc(s), |Top(s, n)|, c);
    SortStable(s, c);
  }

  /** What `sorted(..., reverse=True)[:n]` promises: the first `min(n, |s|)` of the elements by
      descending score, each as often as in `s` at most, nothing left out scoring more than
      something kept, and among equal scores the ones that came first. */
  lemma TopSpec<T>(s: seq<Scored<T>>, n: nat)
    ensures |Top(s, n)| == if n < |s| then n else |s|
    ensures SortedDesc(Top(s, n))
    ensures multiset(Top(s, n)) <= multiset(s)
    ensures forall p, q :: p in Top(s, n) && q in multiset(s) - multiset(Top(s, n)) ==> q.1 <= p.1
    ensures forall c :: WithKey(Top(s, n), c) <= WithKey(s, c)
  {
    TopPrefix(s, n);
    SortSpec(s);
    TopRest(s, n);
    forall c ensures WithKey(Top(s, n), c) <= WithKey(s, c) {
      TopStable(s, n, c);
    }
  }

  /** `TopSpec` read on the items: ranking a list by a score and keeping the first `n` keeps
      `min(n, |xs|)` of the items, in non-increasing score, none of them more often than in `xs`,
      and nothing left out scores more than something kept. */
  lemma TopOfScoreBy<T>(xs: seq<T>, score: T -> real, n: nat)
    ensures var r := Keys(Top(ScoreBy(xs, score), n));
      && |r| == (if n < |xs| then n else |xs|)
      && multiset(r) <= multiset(xs)
      && (forall i, j :: 0 <= i < j < |r| ==> score(r[i]) >= score(r[j]))
      && (forall x, u :: x in xs && x !in r && u in r ==> score(x) <= score(u))
  {
    var s := ScoreBy(xs, score);
    var top := Top(s, n);
    var r := Keys(top);
    TopSpec(s, n);
    TopKeys(s, n);
    KeysScoreBy(xs, score);
    forall p | p in top ensures p.1 == score(p.0) {
      assert p in multiset(top);
      assert p in s;
    }
    forall i, j | 0 <= i < j < |r| ensures score(r[i]) >= score(r[j]) {
      assert top[i] in top && top[j] in top;
    }
    forall x, u | x in xs && x !in r && u in r ensures score(x) <= score(u) {
      var k :| 0 <= k < |xs| && xs[k] == x;
      var q := s[k];
      assert q in multiset(s) - multiset(top);
      var i :| 0 <= i < |r| && r[i] == u;
      assert top[i] in top;
    }
  }
}
