/** A stable comparison sort, the model of Stream.sorted(comparator) on a List
    (a stable merge sort in the JDK). The comparator is given as the relation
    before(a, b), "compare(a, b) < 0". The sort is written as an insertion sort;
    for a comparator that orders its inputs consistently every stable sort has the
    same result. */
module StableSort {
  import opened Seqs

  /** Places x, which precedes every element of s in the input, after the leading
      elements of s that come strictly before it. */
  function Insert<T>(x: T, s: seq<T>, before: (T, T) -> bool): (r: seq<T>)
    ensures |r| == |s| + 1
    ensures multiset(r) == multiset(s) + multiset{x}
  {
    if s == [] then [x]
    else if before(s[0], x) then
      assert s == [s[0]] + s[1..];
      [s[0]] + Insert(x, s[1..], before)
    else [x] + s
  }

  function Sort<T>(s: seq<T>, before: (T, T) -> bool): (r: seq<T>)
    ensures |r| == |s|
    ensures multiset(r) == multiset(s)
  {
    if s == [] then []
    else
      assert s == [s[0]] + s[1..];
      Insert(s[0], Sort(s[1..], before), before)
  }

  /** No element comes strictly before an element placed earlier. */
  ghost predicate Ordered<T>(s: seq<T>, before: (T, T) -> bool) {
    forall i, j :: 0 <= i < j < |s| ==> !before(s[j], s[i])
  }

  /** before is a strict weak order on the elements of dom: asymmetric, and
      "not before" is transitive. */
  ghost predicate StrictWeakOrderOn<T>(dom: seq<T>, before: (T, T) -> bool) {
    && (forall a, b :: a in dom && b in dom && before(a, b) ==> !before(b, a))
    && (forall a, b, c :: a in dom && b in dom && c in dom && before(a, c) ==> before(a, b) || before(b, c))
  }

  /** Keys never increase along s. */
  ghost predicate DescendingBy<T>(s: seq<T>, key: T -> int) {
    forall i, j :: 0 <= i < j < |s| ==> key(s[i]) >= key(s[j])
  }

  /** before puts a larger key first and never puts a smaller key first. */
  ghost predicate RanksBy<T(!new)>(before: (T, T) -> bool, key: T -> int) {
    && (forall a, b :: before(a, b) ==> key(a) >= key(b))
    && (forall a, b :: key(a) > key(b) ==> before(a, b))
  }

  lemma {:induction false} InsertOrdered<T>(x: T, s: seq<T>, before: (T, T) -> bool, dom: seq<T>)
    requires StrictWeakOrderOn(dom, before)
    requires x in dom && forall y :: y in s ==> y in dom
    requires Ordered(s, before)
    ensures Ordered(Insert(x, s, before), before)
  {
    if s != [] {
      var r := Insert(x, s, before);
      if before(s[0], x) {
        var t := Insert(x, s[1..], before);
        InsertOrdered(x, s[1..], before, dom);
        assert r == [s[0]] + t;
        forall j | 0 < j < |r| ensures !before(r[j], r[0]) {
          assert r[j] in multiset(t);
          if r[j] != x {
            assert r[j] in s[1..];
            var k :| 0 <= k < |s[1..]| && s[1..][k] == r[j];
            assert s[k + 1] == r[j];
          }
        }
      } else {
        assert r == [x] + s;
        forall j | 0 <= j < |s| ensures !before(s[j], x) {
          if j > 0 {
            assert !before(s[j], s[0]);
          }
        }
      }
    }
  }

  /** Under a strict weak order the sort leaves no element after one it comes before. */
  lemma {:induction false} SortOrdered<T>(s: seq<T>, before: (T, T) -> bool)
    requires StrictWeakOrderOn(s, before)
    ensures Ordered(Sort(s, before), before)
  {
    if s != [] {
      var t := Sort(s[1..], before);
      assert StrictWeakOrderOn(s[1..], before) by {
        forall y | y in s[1..] ensures y in s { }
      }
      SortOrdered(s[1..], before);
      forall y | y in t ensures y in s {
        assert y in multiset(s[1..]);
      }
      InsertOrdered(s[0], t, before, s);
    }
  }

  lemma {:induction false} InsertDescending<T(!new)>(x: T, s: seq<T>, before: (T, T) -> bool, key: T -> int)
    requires RanksBy(before, key)
    requires DescendingBy(s, key)
    ensures DescendingBy(Insert(x, s, before), key)
  {
    if s != [] {
      var r := Insert(x, s, before);
      if before(s[0], x) {
        var t := Insert(x, s[1..], before);
        InsertDescending(x, s[1..], before, key);
        assert r == [s[0]] + t;
        forall j | 0 < j < |r| ensures key(r[0]) >= key(r[j]) {
          assert r[j] in multiset(t);
          if r[j] != x {
            assert r[j] in s[1..];
            var k :| 0 <= k < |s[1..]| && s[1..][k] == r[j];
            assert s[k + 1] == r[j];
          }
        }
      } else {
        assert r == [x] + s;
      }
    }
  }

  /** A comparator that ranks by a key leaves the keys non-increasing, whatever it
      does with equal keys. */
  lemma {:induction false} SortDescending<T(!new)>(s: seq<T>, before: (T, T) -> bool, key: T -> int)
    requires RanksBy(before, key)
    ensures DescendingBy(Sort(s, before), key)
  {
    if s != [] {
      SortDescending(s[1..], before, key);
      InsertDescending(s[0], Sort(s[1..], before), before, key);
    }
  }

  lemma {:induction false} InsertStable<T>(x: T, s: seq<T>, before: (T, T) -> bool, p: T -> bool)
    requires p(x) ==> forall y :: y in s && p(y) ==> !before(y, x)
    ensures Filter(Insert(x, s, before), p) == Filter([x], p) + Filter(s, p)
  {
    if s == [] {
    } else if before(s[0], x) {
      assert p(x) ==> forall y :: y in s[1..] && p(y) ==> !before(y, x) by {
        forall y | y in s[1..] ensures y in s { }
      }
      InsertStable(x, s[1..], before, p);
      InsertStableStep(x, s, before, p);
    } else {
      FilterConcat([x], s, p);
    }
  }

  /** x passes s[0]: the filtered order is kept when it is kept on s[1..]. */
  lemma InsertStableStep<T>(x: T, s: seq<T>, before: (T, T) -> bool, p: T -> bool)
    requires s != [] && before(s[0], x)
    requires p(x) ==> !p(s[0])
    requires Filter(Insert(x, s[1..], before), p) == Filter([x], p) + Filter(s[1..], p)
    ensures Filter(Insert(x, s, before), p) == Filter([x], p) + Filter(s, p)
  {
    var t := Insert(x, s[1..], before);
    assert Insert(x, s, before) == [s[0]] + t;
    FilterConcat([s[0]], t, p);
    assert s == [s[0]] + s[1..];
    FilterConcat([s[0]], s[1..], p);
    FilterSingleton(x, p);
    FilterSingleton(s[0], p);
    Interleave(Filter([s[0]], p), Filter([x], p), Filter(s[1..], p));
  }

  /** Two parts of which one is empty can be swapped. */
  lemma Interleave<T>(a: seq<T>, b: seq<T>, rest: seq<T>)
    requires a == [] || b == []
    ensures a + (b + rest) == b + (a + rest)
  {
  }

  /** Stability: the elements picked out by p, none of which comes before another,
      keep their input order. */
  lemma {:induction false} SortStable<T>(s: seq<T>, before: (T, T) -> bool, p: T -> bool)
    requires forall a, b :: a in s && b in s && p(a) && p(b) ==> !before(a, b)
    ensures Filter(Sort(s, before), p) == Filter(s, p)
  {
    if s != [] {
      var t := Sort(s[1..], before);
      SortStable(s[1..], before, p);
      forall y | y in t ensures y in s {
        assert y in multiset(s[1..]);
      }
      InsertStable(s[0], t, before, p);
      assert s == [s[0]] + s[1..];
      FilterConcat([s[0]], s[1..], p);
    }
  }
}
