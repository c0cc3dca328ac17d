/** The library sort that both codecs rely on, and the uniqueness of its result. */
module Sorting {
  ghost predicate SortedBy<T>(s: seq<T>, key: T -> int) {
    forall i, j :: 0 <= i < j < |s| ==> key(s[i]) <= key(s[j])
  }

  ghost predicate StrictBy<T>(s: seq<T>, key: T -> int) {
    forall i, j :: 0 <= i < j < |s| ==> key(s[i]) < key(s[j])
  }

  function Insert<T>(t: seq<T>, x: T, key: T -> int): (r: seq<T>)
    ensures |r| == |t| + 1
  {
    if t == [] || key(t[|t| - 1]) <= key(x) then t + [x] else Insert(t[..|t| - 1], x, key) + [t[|t| - 1]]
  }

  function SortTo<T>(s: seq<T>, n: nat, key: T -> int): (r: seq<T>)
    requires n <= |s|
    ensures |r| == n
  {
    if n == 0 then [] else Insert(SortTo(s, n - 1, key), s[n - 1], key)
  }

  function SortBy<T>(s: seq<T>, key: T -> int): (r: seq<T>)
    ensures |r| == |s|
  {
    SortTo(s, |s|, key)
  }

  lemma LastInBag<T>(s: seq<T>)
    requires s != []
    ensures multiset(s) == multiset(s[..|s| - 1]) + multiset{s[|s| - 1]}
  {
    assert s == s[..|s| - 1] + [s[|s| - 1]];
  }

  lemma PrefixBag<T>(s: seq<T>, n: nat)
    requires 0 < n <= |s|
    ensures multiset(s[..n]) == multiset(s[..n - 1]) + multiset{s[n - 1]}
  {
    assert s[..n] == s[..n - 1] + [s[n - 1]];
  }

  lemma BoundedBag<T>(u: seq<T>, x: T, r: seq<T>, key: T -> int, hi: int)
    requires multiset(r) == multiset(u) + multiset{x} && key(x) <= hi
    requires forall i :: 0 <= i < |u| ==> key(u[i]) <= hi
    ensures forall i :: 0 <= i < |r| ==> key(r[i]) <= hi
  {
    forall i | 0 <= i < |r|
      ensures key(r[i]) <= hi
    {
      assert r[i] in multiset(r);
      assert r[i] in u || r[i] == x;
    }
  }

  lemma SortedAppend<T>(t: seq<T>, x: T, key: T -> int)
    requires SortedBy(t, key) && forall i :: 0 <= i < |t| ==> key(t[i]) <= key(x)
    ensures SortedBy(t + [x], key) && multiset(t + [x]) == multiset(t) + multiset{x}
  {
  }

  lemma {:induction false} InsertSorted<T>(t: seq<T>, x: T, key: T -> int)
    requires SortedBy(t, key)
    ensures SortedBy(Insert(t, x, key), key) && multiset(Insert(t, x, key)) == multiset(t) + multiset{x}
  {
    if t == [] || key(t[|t| - 1]) <= key(x) {
      SortedAppend(t, x, key);
    } else {
      var u, last := t[..|t| - 1], t[|t| - 1];
      InsertSorted(u, x, key);
      BoundedBag(u, x, Insert(u, x, key), key, key(last));
      SortedAppend(Insert(u, x, key), last, key);
      LastInBag(t);
    }
  }

  lemma {:induction false} SortToSorts<T>(s: seq<T>, n: nat, key: T -> int)
    requires n <= |s|
    ensures SortedBy(SortTo(s, n, key), key) && multiset(SortTo(s, n, key)) == multiset(s[..n])
  {
    if n > 0 {
      SortToSorts(s, n - 1, key);
      InsertSorted(SortTo(s, n - 1, key), s[n - 1], key);
      PrefixBag(s, n);
    }
  }

  lemma SortBySorts<T>(s: seq<T>, key: T -> int)
    ensures SortedBy(SortBy(s, key), key) && multiset(SortBy(s, key)) == multiset(s)
  {
    SortToSorts(s, |s|, key);
    assert s[..|s|] == s;
  }

  ghost predicate DistinctBy<T>(s: seq<T>, key: T -> int) {
    forall i, j :: 0 <= i < j < |s| ==> key(s[i]) != key(s[j])
  }

  /** Distinct keys are a matter of the contents alone. */
  lemma {:induction false} DistinctPermutes<T>(a: seq<T>, b: seq<T>, key: T -> int)
    requires multiset(a) == multiset(b) && DistinctBy(a, key)
    ensures DistinctBy(b, key)
  {
    forall i, j | 0 <= i < j < |b|
      ensures key(b[i]) != key(b[j])
    {
      assert b[i] in multiset(b) && b[j] in multiset(b);
      if b[i] == b[j] {
        TwiceInBag(b, i, j);
        OnceInBag(a, b[i], key);
      } else {
        assert b[i] in a && b[j] in a;
      }
    }
  }

  lemma TwiceInBag<T>(s: seq<T>, i: nat, j: nat)
    requires i < j < |s| && s[i] == s[j]
    ensures multiset(s)[s[i]] >= 2
  {
    assert s == s[..j] + [s[j]] + s[j + 1..];
    assert s[i] == s[..j][i];
    assert s[i] in s[..j];
  }

  lemma {:induction false} OnceInBag<T>(s: seq<T>, x: T, key: T -> int)
    requires DistinctBy(s, key)
    ensures multiset(s)[x] <= 1
  {
    if s != [] {
      var t := s[..|s| - 1];
      OnceInBag(t, x, key);
      assert s == t + [s[|s| - 1]];
      assert x == s[|s| - 1] ==> x !in t;
    }
  }

  /** With distinct keys the result of sorting is the only strictly increasing arrangement. */
  lemma {:induction false} StrictIsUnique<T>(a: seq<T>, b: seq<T>, key: T -> int)
    requires multiset(a) == multiset(b) && StrictBy(a, key) && StrictBy(b, key)
    ensures a == b
  {
    assert |a| == |multiset(a)| == |multiset(b)| == |b|;
    if a != [] {
      var n := |a| - 1;
      LastsAgree(a, b, key);
      LastInBag(a);
      LastInBag(b);
      Cancel(multiset(a[..n]), multiset(b[..n]), a[n]);
      StrictIsUnique(a[..n], b[..n], key);
      SameParts(a, b);
    }
  }

  lemma Cancel<T>(a: multiset<T>, b: multiset<T>, x: T)
    requires a + multiset{x} == b + multiset{x}
    ensures a == b
  {
    assert a == a + multiset{x} - multiset{x};
    assert b == b + multiset{x} - multiset{x};
  }

  lemma SameParts<T>(a: seq<T>, b: seq<T>)
    requires a != [] && b != [] && a[..|a| - 1] == b[..|b| - 1] && a[|a| - 1] == b[|b| - 1]
    ensures a == b
  {
    assert a == a[..|a| - 1] + [a[|a| - 1]];
    assert b == b[..|b| - 1] + [b[|b| - 1]];
  }

  lemma LastsAgree<T>(a: seq<T>, b: seq<T>, key: T -> int)
    requires multiset(a) == multiset(b) && StrictBy(a, key) && StrictBy(b, key) && a != [] && b != []
    ensures a[|a| - 1] == b[|b| - 1]
  {
    var x, y := a[|a| - 1], b[|b| - 1];
    assert x in multiset(b) && y in multiset(a);
    var i :| 0 <= i < |b| && b[i] == x;
    var j :| 0 <= j < |a| && a[j] == y;
  }

  lemma SortByDistinct<T>(s: seq<T>, key: T -> int)
    requires DistinctBy(s, key)
    ensures StrictBy(SortBy(s, key), key) && multiset(SortBy(s, key)) == multiset(s)
  {
    SortBySorts(s, key);
    DistinctPermutes(s, SortBy(s, key), key);
  }

  /** Two splits of the same contents by the same test have the same halves. */
  lemma SplitIsUnique<T>(a: seq<T>, b: seq<T>, c: seq<T>, d: seq<T>, p: T -> bool)
    requires multiset(a + b) == multiset(c + d)
    requires forall x :: (x in a ==> p(x)) && (x in b ==> !p(x)) && (x in c ==> p(x)) && (x in d ==> !p(x))
    ensures multiset(a) == multiset(c) && multiset(b) == multiset(d)
  {
    assert multiset(a + b) == multiset(a) + multiset(b);
    assert multiset(c + d) == multiset(c) + multiset(d);
    forall x
      ensures multiset(a)[x] == multiset(c)[x] && multiset(b)[x] == multiset(d)[x]
    {
      assert multiset(a + b)[x] == multiset(a)[x] + multiset(b)[x];
      assert multiset(c + d)[x] == multiset(c)[x] + multiset(d)[x];
      if p(x) {
        assert x !in multiset(b) && x !in multiset(d);
      } else {
        assert x !in multiset(a) && x !in multiset(c);
      }
    }
  }
}
