/** Order-preserving filtering of sequences, the model of Java's
    stream().filter(...).toList(). */
module Seqs {

  function Filter<T>(s: seq<T>, p: T -> bool): (r: seq<T>)
    ensures |r| <= |s|
    ensures forall i :: 0 <= i < |r| ==> p(r[i])
  {
    if s == [] then [] else (if p(s[0]) then [s[0]] else []) + Filter(s[1..], p)
  }

  lemma {:induction false} FilterMember<T>(s: seq<T>, p: T -> bool, x: T)
    ensures x in Filter(s, p) <==> x in s && p(x)
  {
    if s != [] {
      FilterMember(s[1..], p, x);
      assert s == [s[0]] + s[1..];
    }
  }

  lemma {:induction false} FilterConcat<T>(a: seq<T>, b: seq<T>, p: T -> bool)
    ensures Filter(a + b, p) == Filter(a, p) + Filter(b, p)
  {
    if a == [] {
      assert a + b == b;
    } else {
      assert (a + b)[0] == a[0] && (a + b)[1..] == a[1..] + b;
      FilterConcat(a[1..], b, p);
    }
  }

  lemma FilterSingleton<T>(x: T, p: T -> bool)
    ensures Filter([x], p) == if p(x) then [x] else []
  {
    assert [x][1..] == [];
  }

  lemma FilterSnoc<T>(a: seq<T>, x: T, p: T -> bool)
    ensures Filter(a + [x], p) == Filter(a, p) + (if p(x) then [x] else [])
  {
    FilterConcat(a, [x], p);
  }

  lemma {:induction false} FilterMultiset<T>(s: seq<T>, p: T -> bool)
    ensures multiset(Filter(s, p)) <= multiset(s)
  {
    if s != [] {
      FilterMultiset(s[1..], p);
      assert s == [s[0]] + s[1..];
    }
  }

  /** Filtering twice keeps the elements that pass both tests. */
  lemma {:induction false} FilterFilter<T>(s: seq<T>, p: T -> bool, q: T -> bool)
    ensures Filter(Filter(s, p), q) == Filter(s, x => p(x) && q(x))
  {
    if s != [] {
      FilterFilter(s[1..], p, q);
      FilterConcat(if p(s[0]) then [s[0]] else [], Filter(s[1..], p), q);
    }
  }

  /** Nothing is dropped exactly when every element passes. */
  lemma {:induction false} FilterKeepsAll<T>(s: seq<T>, p: T -> bool)
    ensures |Filter(s, p)| == |s| <==> forall i :: 0 <= i < |s| ==> p(s[i])
  {
    if s != [] {
      FilterKeepsAll(s[1..], p);
      if !p(s[0]) {
        assert |Filter(s, p)| == |Filter(s[1..], p)| <= |s| - 1;
      }
      assert forall i :: 1 <= i < |s| ==> s[i] == s[1..][i - 1];
    }
  }

  /** s[..n] when n fits, s otherwise: Stream.limit(n) for n >= 0. */
  function Take<T>(s: seq<T>, n: nat): (r: seq<T>)
    ensures |r| == if n < |s| then n else |s|
    ensures r <= s
  {
    if n < |s| then s[..n] else s
  }

  /** The positions below n that satisfy p, in increasing order. */
  function IndicesWhere(n: nat, p: nat -> bool): seq<nat> {
    if n == 0 then [] else IndicesWhere(n - 1, p) + (if p(n - 1) then [n - 1] else [])
  }

  /** IndicesWhere lists every position below n that satisfies p, and only those,
      each once and ascending. */
  lemma {:induction false} IndicesWhereExact(n: nat, p: nat -> bool)
    ensures forall t :: 0 <= t < |IndicesWhere(n, p)| ==> IndicesWhere(n, p)[t] < n && p(IndicesWhere(n, p)[t])
    ensures forall s, t :: 0 <= s < t < |IndicesWhere(n, p)| ==> IndicesWhere(n, p)[s] < IndicesWhere(n, p)[t]
    ensures forall i :: 0 <= i < n && p(i) ==> i in IndicesWhere(n, p)
  {
    if n > 0 {
      IndicesWhereExact(n - 1, p);
      var prev := IndicesWhere(n - 1, p);
      var r := IndicesWhere(n, p);
      if p(n - 1) {
        assert r == prev + [n - 1];
        forall s, t | 0 <= s < t < |r| ensures r[s] < r[t] {
          if t < |prev| {
            assert r[s] == prev[s] && r[t] == prev[t];
          } else {
            assert r[s] == prev[s] < n - 1;
          }
        }
        forall i | 0 <= i < n && p(i) ensures i in r {
          if i < n - 1 {
            assert i in prev;
          } else {
            assert r[|prev|] == i;
          }
        }
      } else {
        assert r == prev;
      }
    }
  }

  /** f(k, s[0]) + f(k + 1, s[1]) + ...: the elements of s rendered with running
      numbers from k on. */
  function NumberedJoin<T>(s: seq<T>, k: nat, f: (nat, T) -> string): string
    decreases |s|
  {
    if s == [] then "" else f(k, s[0]) + NumberedJoin(s[1..], k + 1, f)
  }

  lemma {:induction false} NumberedJoinSnoc<T>(s: seq<T>, x: T, k: nat, f: (nat, T) -> string)
    ensures NumberedJoin(s + [x], k, f) == NumberedJoin(s, k, f) + f(k + |s|, x)
    decreases |s|
  {
    if s == [] {
      assert s + [x] == [x];
    } else {
      assert (s + [x])[1..] == s[1..] + [x];
      NumberedJoinSnoc(s[1..], x, k + 1, f);
    }
  }

  /** The t-th element is rendered with number k + t, between the renderings of the
      elements before and after it. */
  lemma {:induction false} NumberedJoinAt<T>(s: seq<T>, k: nat, t: nat, f: (nat, T) -> string)
    requires t < |s|
    ensures NumberedJoin(s, k, f) == NumberedJoin(s[..t], k, f) + f(k + t, s[t]) + NumberedJoin(s[t + 1..], k + t + 1, f)
    decreases t
  {
    if t == 0 {
      assert s[..0] == [];
    } else {
      NumberedJoinAt(s[1..], k + 1, t - 1, f);
      assert s[1..][..t - 1] == s[1..t];
      assert s[1..][t - 1] == s[t] && s[1..][t..] == s[t + 1..];
      assert s[..t][0] == s[0] && s[..t][1..] == s[1..t];
    }
  }

  lemma AppendAssoc<T>(a: seq<T>, b: seq<T>, c: seq<T>)
    ensures (a + b) + c == a + (b + c)
  {
  }

  lemma EmptyAppend<T>(a: seq<T>)
    ensures [] + a == a
  {
  }
}
