/** Counting, filtering and removal on sequences: the vocabulary in which both picture buffers are specified. */
module Seqs {

  /** How many of the first n elements of s satisfy p. */
  function CountTo<T>(s: seq<T>, n: nat, p: T -> bool): (c: nat)
    requires n <= |s|
    ensures c <= n
  {
    if n == 0 then 0 else CountTo(s, n - 1, p) + (if p(s[n - 1]) then 1 else 0)
  }

  function Count<T>(s: seq<T>, p: T -> bool): (c: nat)
    ensures c <= |s|
  {
    CountTo(s, |s|, p)
  }

  /** Those of the first n elements of s that satisfy p, in order. */
  function FilterTo<T>(s: seq<T>, n: nat, p: T -> bool): (r: seq<T>)
    requires n <= |s|
    ensures |r| <= n
  {
    if n == 0 then []
    else if p(s[n - 1]) then FilterTo(s, n - 1, p) + [s[n - 1]]
    else FilterTo(s, n - 1, p)
  }

  function Filter<T>(s: seq<T>, p: T -> bool): (r: seq<T>)
    ensures |r| <= |s|
  {
    FilterTo(s, |s|, p)
  }

  function Map<T, U>(s: seq<T>, f: T -> U): (r: seq<U>)
    ensures |r| == |s|
    ensures forall i {:trigger r[i]} :: 0 <= i < |s| ==> r[i] == f(s[i])
  {
    seq(|s|, i requires 0 <= i < |s| => f(s[i]))
  }

  /** Removal that keeps the order of the rest. */
  function RemoveAt<T>(s: seq<T>, i: nat): (r: seq<T>)
    requires i < |s|
    ensures |r| == |s| - 1
    ensures forall k {:trigger r[k]} :: 0 <= k < |r| ==> r[k] == if k < i then s[k] else s[k + 1]
  {
    s[..i] + s[i + 1..]
  }

  /** Removal that moves the last element into the hole. */
  function RemoveFast<T>(s: seq<T>, i: nat): (r: seq<T>)
    requires i < |s|
    ensures |r| == |s| - 1
    ensures forall k {:trigger r[k]} :: 0 <= k < |r| ==> r[k] == if k == i then s[|s| - 1] else s[k]
  {
    if i == |s| - 1 then s[..i] else s[..|s| - 1][i := s[|s| - 1]]
  }

  /** Index of the first of the first n elements that satisfies p, or -1. */
  function FindTo<T>(s: seq<T>, n: nat, p: T -> bool): (i: int)
    requires n <= |s|
    ensures -1 <= i < n
    ensures i >= 0 ==> p(s[i]) && forall k :: 0 <= k < i ==> !p(s[k])
    ensures i < 0 ==> forall k :: 0 <= k < n ==> !p(s[k])
  {
    if n == 0 then -1
    else
      var r := FindTo(s, n - 1, p);
      if r >= 0 then r else if p(s[n - 1]) then n - 1 else -1
  }

  function Find<T>(s: seq<T>, p: T -> bool): (i: int)
    ensures -1 <= i < |s|
    ensures i >= 0 ==> p(s[i]) && forall k :: 0 <= k < i ==> !p(s[k])
    ensures i < 0 ==> forall k :: 0 <= k < |s| ==> !p(s[k])
  {
    FindTo(s, |s|, p)
  }

  predicate Injective<T(==)>(s: seq<T>) {
    forall i, j :: 0 <= i < j < |s| ==> s[i] != s[j]
  }

  lemma InjectiveRemove<T>(s: seq<T>, i: nat)
    requires i < |s| && Injective(s)
    ensures Injective(RemoveAt(s, i)) && Injective(RemoveFast(s, i))
  {
  }

  lemma RemoveKeepsRest<T>(s: seq<T>, i: nat)
    requires i < |s|
    ensures forall x :: x in s && x != s[i] ==> x in RemoveAt(s, i) && x in RemoveFast(s, i)
  {
    forall k | 0 <= k < |s| && k != i
      ensures s[k] in RemoveAt(s, i) && s[k] in RemoveFast(s, i)
    {
      assert RemoveAt(s, i)[if k < i then k else k - 1] == s[k];
      assert RemoveFast(s, i)[if k == |s| - 1 then i else k] == s[k];
    }
  }

  lemma InjectiveAppend<T>(s: seq<T>, x: T)
    requires Injective(s) && x !in s
    ensures Injective(s + [x])
  {
  }

  /** Counts look only at p. */
  lemma {:induction false} CountSame<T, U>(a: seq<T>, p: T -> bool, b: seq<U>, q: U -> bool, n: nat)
    requires n <= |a| && n <= |b| && forall i :: 0 <= i < n ==> p(a[i]) == q(b[i])
    ensures CountTo(a, n, p) == CountTo(b, n, q)
  {
    if n > 0 {
      CountSame(a, p, b, q, n - 1);
    }
  }

  lemma {:induction false} FilterSame<T>(a: seq<T>, b: seq<T>, p: T -> bool, n: nat)
    requires n <= |a| && n <= |b| && a[..n] == b[..n]
    ensures FilterTo(a, n, p) == FilterTo(b, n, p)
  {
    if n > 0 {
      assert a[..n][..n - 1] == a[..n - 1] && b[..n][..n - 1] == b[..n - 1];
      assert a[n - 1] == a[..n][n - 1] == b[..n][n - 1] == b[n - 1];
      FilterSame(a, b, p, n - 1);
    }
  }

  /** Appending, for counts and for filters. */
  lemma CountAppend<T>(s: seq<T>, x: T, p: T -> bool)
    ensures Count(s + [x], p) == Count(s, p) + (if p(x) then 1 else 0)
  {
    CountSame(s + [x], p, s, p, |s|);
  }

  lemma FilterAppend<T>(s: seq<T>, x: T, p: T -> bool)
    ensures Filter(s + [x], p) == if p(x) then Filter(s, p) + [x] else Filter(s, p)
  {
    FilterSame(s + [x], s, p, |s|);
  }

  lemma MapLast<T, U>(s: seq<T>, f: T -> U)
    requires s != []
    ensures Map(s, f) == Map(s[..|s| - 1], f) + [f(s[|s| - 1])]
  {
  }

  lemma {:induction false} CountConcat<T>(a: seq<T>, b: seq<T>, p: T -> bool)
    ensures Count(a + b, p) == Count(a, p) + Count(b, p)
  {
    if b == [] {
      assert a + b == a;
    } else {
      var b', x := b[..|b| - 1], b[|b| - 1];
      assert a + b == (a + b') + [x] && b == b' + [x];
      CountConcat(a, b', p);
      CountAppend(a + b', x, p);
      CountAppend(b', x, p);
    }
  }

  lemma {:induction false} FilterConcat<T>(a: seq<T>, b: seq<T>, p: T -> bool)
    ensures Filter(a + b, p) == Filter(a, p) + Filter(b, p)
  {
    if b == [] {
      assert a + b == a;
    } else {
      var b', x := b[..|b| - 1], b[|b| - 1];
      assert a + b == (a + b') + [x] && b == b' + [x];
      FilterConcat(a, b', p);
      FilterAppend(a + b', x, p);
      FilterAppend(b', x, p);
    }
  }

  /** Splitting off one element; the removal and update facts follow from it. */
  lemma CountAt<T>(s: seq<T>, i: nat, p: T -> bool)
    requires i < |s|
    ensures Count(s, p) == Count(s[..i], p) + (if p(s[i]) then 1 else 0) + Count(s[i + 1..], p)
  {
    assert s == (s[..i] + [s[i]]) + s[i + 1..];
    CountConcat(s[..i] + [s[i]], s[i + 1..], p);
    CountAppend(s[..i], s[i], p);
  }

  lemma FilterAt<T>(s: seq<T>, i: nat, p: T -> bool)
    requires i < |s|
    ensures Filter(s, p) == Filter(s[..i], p) + (if p(s[i]) then [s[i]] else []) + Filter(s[i + 1..], p)
  {
    assert s == (s[..i] + [s[i]]) + s[i + 1..];
    FilterConcat(s[..i] + [s[i]], s[i + 1..], p);
    FilterAppend(s[..i], s[i], p);
  }

  lemma CountUpdate<T>(s: seq<T>, i: nat, x: T, p: T -> bool)
    requires i < |s|
    ensures Count(s[i := x], p) == Count(s, p) - (if p(s[i]) then 1 else 0) + (if p(x) then 1 else 0)
  {
    CountAt(s, i, p);
    CountAt(s[i := x], i, p);
    assert s[i := x][..i] == s[..i] && s[i := x][i + 1..] == s[i + 1..];
  }

  lemma CountRemove<T>(s: seq<T>, i: nat, p: T -> bool)
    requires i < |s|
    ensures Count(RemoveAt(s, i), p) == Count(s, p) - (if p(s[i]) then 1 else 0)
    ensures Count(RemoveFast(s, i), p) == Count(s, p) - (if p(s[i]) then 1 else 0)
  {
    CountAt(s, i, p);
    CountConcat(s[..i], s[i + 1..], p);
    if i < |s| - 1 {
      CountAt(s, |s| - 1, p);
      CountUpdate(s[..|s| - 1], i, s[|s| - 1], p);
    } else {
      assert RemoveFast(s, i) == RemoveAt(s, i);
    }
  }

  /** Filtering keeps what is counted, and only elements of s. */
  lemma {:induction false} FilterMembers<T>(s: seq<T>, n: nat, p: T -> bool)
    requires n <= |s|
    ensures forall x :: x in FilterTo(s, n, p) ==> x in s[..n] && p(x)
    ensures forall x :: x in s[..n] && p(x) ==> x in FilterTo(s, n, p)
  {
    if n > 0 {
      assert s[..n] == s[..n - 1] + [s[n - 1]];
      FilterMembers(s, n - 1, p);
    }
  }

  ghost predicate Pairwise<T>(s: seq<T>, rel: (T, T) -> bool) {
    forall i, j :: 0 <= i < j < |s| ==> rel(s[i], s[j])
  }

  /** Filtering keeps every pairwise relation, order included. */
  lemma {:induction false} FilterPairwise<T>(s: seq<T>, n: nat, p: T -> bool, rel: (T, T) -> bool)
    requires n <= |s| && Pairwise(s, rel)
    ensures Pairwise(FilterTo(s, n, p), rel)
  {
    if n > 0 {
      var r := FilterTo(s, n - 1, p);
      FilterPairwise(s, n - 1, p, rel);
      FilterMembers(s, n - 1, p);
      forall i | 0 <= i < |r|
        ensures rel(r[i], s[n - 1])
      {
        assert r[i] in s[..n - 1];
        var k :| 0 <= k < n - 1 && s[..n - 1][k] == r[i];
        assert rel(s[k], s[n - 1]);
      }
    }
  }

  lemma {:induction false} CountFilter<T>(s: seq<T>, keep: T -> bool, p: T -> bool)
    requires forall x :: x in s && p(x) ==> keep(x)
    ensures Count(Filter(s, keep), p) == Count(s, p)
  {
    if s != [] {
      var t, x := s[..|s| - 1], s[|s| - 1];
      assert s == t + [x];
      CountFilter(t, keep, p);
      FilterAppend(t, x, keep);
      CountAppend(t, x, p);
      CountAppend(Filter(t, keep), x, p);
    }
  }

  lemma {:induction false} FilterAll<T>(s: seq<T>, n: nat, p: T -> bool)
    requires n <= |s| && forall i :: 0 <= i < n ==> p(s[i])
    ensures FilterTo(s, n, p) == s[..n]
  {
    if n > 0 {
      FilterAll(s, n - 1, p);
      assert s[..n] == s[..n - 1] + [s[n - 1]];
    }
  }

  lemma {:induction false} FilterNone<T>(s: seq<T>, p: T -> bool, n: nat)
    requires n <= |s| && forall k :: 0 <= k < n ==> !p(s[k])
    ensures FilterTo(s, n, p) == []
  {
    if n > 0 {
      FilterNone(s, p, n - 1);
    }
  }

  lemma {:induction false} FilterCount<T>(s: seq<T>, p: T -> bool, n: nat)
    requires n <= |s|
    ensures |FilterTo(s, n, p)| == CountTo(s, n, p)
  {
    if n > 0 {
      FilterCount(s, p, n - 1);
    }
  }

  lemma MapAppend<T, U>(s: seq<T>, x: T, f: T -> U)
    ensures Map(s + [x], f) == Map(s, f) + [f(x)]
  {
  }

  lemma {:induction false} FilterTwice<T>(s: seq<T>, keep: T -> bool, p: T -> bool)
    requires forall x :: x in s && p(x) ==> keep(x)
    ensures Filter(Filter(s, keep), p) == Filter(s, p)
  {
    if s != [] {
      var t, x := s[..|s| - 1], s[|s| - 1];
      assert s == t + [x];
      FilterTwice(t, keep, p);
      FilterAppend(t, x, keep);
      FilterAppend(t, x, p);
      FilterAppend(Filter(t, keep), x, p);
    }
  }

  /** One step of deleting in place: cur is the filtered part of s[..done] followed by the rest of s. */
  lemma FilterStep<T>(s: seq<T>, done: nat, cur: seq<T>, i: nat, keep: T -> bool)
    requires done < |s| && i < |cur|
    requires cur[..i] == FilterTo(s, done, keep) && cur[i..] == s[done..]
    ensures cur[i] == s[done]
    ensures keep(s[done]) ==> cur[..i + 1] == FilterTo(s, done + 1, keep) && cur[i + 1..] == s[done + 1..]
    ensures !keep(s[done]) ==>
              RemoveAt(cur, i)[..i] == FilterTo(s, done + 1, keep) && RemoveAt(cur, i)[i..] == s[done + 1..]
  {
    assert cur[i] == cur[i..][0] == s[done];
    assert cur[i + 1..] == cur[i..][1..] == s[done + 1..];
    assert cur[..i + 1] == cur[..i] + [cur[i]];
    assert RemoveAt(cur, i)[..i] == cur[..i] && RemoveAt(cur, i)[i..] == cur[i + 1..];
  }

  lemma {:induction false} CountMonotone<T>(s: seq<T>, p: T -> bool, q: T -> bool, n: nat)
    requires n <= |s| && forall i :: 0 <= i < n && p(s[i]) ==> q(s[i])
    ensures CountTo(s, n, p) <= CountTo(s, n, q)
  {
    if n > 0 {
      CountMonotone(s, p, q, n - 1);
    }
  }

  lemma {:induction false} CountPrefix<T>(s: seq<T>, n: nat, p: T -> bool)
    requires n <= |s|
    ensures CountTo(s, n, p) <= Count(s, p)
    decreases |s| - n
  {
    if n < |s| {
      CountPrefix(s, n + 1, p);
    }
  }

  lemma {:induction false} CountAll<T>(s: seq<T>, p: T -> bool, n: nat)
    requires n <= |s|
    ensures CountTo(s, n, p) == n <==> forall i :: 0 <= i < n ==> p(s[i])
    ensures CountTo(s, n, p) == 0 <==> forall i :: 0 <= i < n ==> !p(s[i])
  {
    if n > 0 {
      CountAll(s, p, n - 1);
    }
  }

  /** Elements found at listed positions are no more than the list is long. */
  lemma CountByIndices<T>(s: seq<T>, p: T -> bool, n: nat, all: seq<int>)
    requires n <= |s| && forall i :: 0 <= i < n && p(s[i]) ==> i in all
    ensures CountTo(s, n, p) <= |all|
  {
    CountIndices(s, p, n);
    var found, listed := set i | 0 <= i < n && p(s[i]), set x | x in all;
    SubsetCard(found, listed);
    SetOfSeqCard(all);
  }

  lemma {:induction false} CountIndices<T>(s: seq<T>, p: T -> bool, n: nat)
    requires n <= |s|
    ensures CountTo(s, n, p) == |set i | 0 <= i < n && p(s[i])|
  {
    if n > 0 {
      CountIndices(s, p, n - 1);
      var before := set i | 0 <= i < n - 1 && p(s[i]);
      assert (set i | 0 <= i < n && p(s[i])) == before + if p(s[n - 1]) then {n - 1} else {};
    }
  }

  lemma {:induction false} SetOfSeqCard<T>(a: seq<T>)
    ensures |set x | x in a| <= |a|
  {
    if a != [] {
      var b := a[..|a| - 1];
      SetOfSeqCard(b);
      assert (set x | x in a) == (set x | x in b) + {a[|a| - 1]};
    }
  }

  lemma {:induction false} SubsetCard<T>(a: set<T>, b: set<T>)
    requires a <= b
    ensures |a| <= |b|
  {
    if a != {} {
      var x :| x in a;
      SubsetCard(a - {x}, b - {x});
    }
  }
}
