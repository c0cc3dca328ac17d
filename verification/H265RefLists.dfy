/** H.265 reference picture lists (section 8.3.4): the current sets laid end to end, repeated as often as needed. */
module H265RefLists {
  import opened Modulo

  /** The first n elements of s repeated for ever. */
  function Cycle<T>(s: seq<T>, n: nat): (r: seq<T>)
    requires s != [] || n == 0
    ensures |r| == n && forall k {:trigger r[k]} :: 0 <= k < n ==> r[k] == s[k % |s|]
  {
    seq(n, k requires 0 <= k < n => s[k % |s|])
  }

  lemma StepAround(k: nat, n: nat)
    requires n > 0
    ensures (k + 1) % n == if k % n + 1 == n then 0 else k % n + 1
  {
    var q, r := k / n, k % n;
    assert k == q * n + r;
    if r + 1 == n {
      assert k + 1 == (q + 1) * n;
      ModUnique(k + 1, n, q + 1, 0);
    } else {
      ModUnique(k + 1, n, q, r + 1);
    }
  }

  lemma CycleStep<T>(s: seq<T>, k: nat)
    requires s != []
    ensures Cycle(s, k + 1) == Cycle(s, k) + [s[k % |s|]]
  {
  }

  /** One of the inner loops: set is the stretch of all that starts at from. */
  method AppendSet<T>(tmp0: seq<T>, set0: seq<T>, n: nat, ghost all: seq<T>, ghost from: nat) returns (tmp: seq<T>)
    requires all != [] && from + |set0| <= |all| && all[from..from + |set0|] == set0
    requires |tmp0| <= n && tmp0 == Cycle(all, |tmp0|)
    requires |tmp0| < n ==> |tmp0| % |all| == from % |all|
    ensures |tmp0| <= |tmp| <= n && tmp == Cycle(all, |tmp|)
    ensures |tmp| < n ==> |tmp| % |all| == (from + |set0|) % |all| && |tmp| == |tmp0| + |set0|
  {
    tmp := tmp0;
    var i := 0;
    while i < |set0| && |tmp| < n
      invariant 0 <= i <= |set0| && |tmp| == |tmp0| + i && |tmp| <= n
      invariant tmp == Cycle(all, |tmp|)
      invariant |tmp| < n ==> |tmp| % |all| == (from + i) % |all|
    {
      StepAround(|tmp|, |all|);
      StepAround(from + i, |all|);
      ModUnique(from + i, |all|, 0, from + i);
      assert all[from..from + |set0|][i] == all[from + i];
      CycleStep(all, |tmp|);
      tmp := tmp + [set0[i]];
      i := i + 1;
    }
  }

  /** (8-8) and (8-10): the three sets, over and over, until n entries are there. */
  method FillTemp<T>(first: seq<T>, second: seq<T>, third: seq<T>, n: nat) returns (tmp: seq<T>)
    requires first + second + third != []
    ensures tmp == Cycle(first + second + third, n)
  {
    ghost var a, b := |first|, |first| + |second|;
    ghost var all := first + second + third;
    tmp := [];
    ModUnique(0, |all|, 0, 0);
    while |tmp| < n
      invariant |tmp| <= n && tmp == Cycle(all, |tmp|)
      invariant |tmp| < n ==> |tmp| % |all| == 0
      decreases n - |tmp|
    {
      ghost var before := |tmp|;
      assert all[0..a] == first && all[a..b] == second && all[b..|all|] == third;
      tmp := AppendSet(tmp, first, n, all, 0);
      tmp := AppendSet(tmp, second, n, all, a);
      tmp := AppendSet(tmp, third, n, all, b);
      ModUnique(|all|, |all|, 1, 0);
    }
  }

  /** What the slice header says about one list; entries, if any, replace the order of the list. */
  datatype ListHeader = ListHeader(active: nat, modified: bool, entries: seq<nat>)

  function Max(a: nat, b: nat): nat { if a >= b then a else b }

  predicate ValidHeader(h: ListHeader, total: nat) {
    h.modified ==> |h.entries| == h.active && forall i :: 0 <= i < h.active ==> h.entries[i] < total
  }

  /** (8-9) and (8-11). */
  function List<T>(all: seq<T>, h: ListHeader): (r: seq<T>)
    requires all != [] && ValidHeader(h, |all|)
    ensures |r| == h.active
  {
    seq(h.active, i requires 0 <= i < h.active => if h.modified then all[h.entries[i]] else all[i % |all|])
  }

  method SelectEntries<T>(tmp: seq<T>, all: seq<T>, h: ListHeader) returns (list: seq<T>)
    requires all != [] && ValidHeader(h, |all|) && tmp == Cycle(all, Max(h.active, |all|))
    ensures list == List(all, h)
  {
    list := [];
    for i := 0 to h.active
      invariant list == List(all, h)[..i]
    {
      if h.modified {
        ModUnique(h.entries[i], |all|, 0, h.entries[i]);
        list := list + [tmp[h.entries[i]]];
      } else {
        list := list + [tmp[i]];
      }
    }
  }

  datatype SliceType = I | P | B

  /** `process_ref_pic_lists`. Without any current reference both lists stay empty. */
  method ProcessRefPicLists<T>(kind: SliceType, before: seq<T>, after: seq<T>, longTerm: seq<T>,
                               h0: ListHeader, h1: ListHeader) returns (list0: seq<T>, list1: seq<T>)
    requires ValidHeader(h0, |before| + |after| + |longTerm|) && ValidHeader(h1, |before| + |after| + |longTerm|)
    ensures kind == I || before + after + longTerm == [] ==> list0 == [] && list1 == []
    ensures kind != I && before + after + longTerm != [] ==> list0 == List(before + after + longTerm, h0)
    ensures kind == P ==> list1 == []
    ensures kind == B && before + after + longTerm != [] ==> list1 == List(after + before + longTerm, h1)
  {
    list0, list1 := [], [];
    if kind == I {
      return;
    }
    if |before| == 0 && |after| == 0 && |longTerm| == 0 {
      return;
    }
    var total := |before| + |after| + |longTerm|;
    var tmp := FillTemp(before, after, longTerm, Max(h0.active, total));
    list0 := SelectEntries(tmp, before + after + longTerm, h0);
    if kind == P {
      return;
    }
    tmp := FillTemp(after, before, longTerm, Max(h1.active, total));
    list1 := SelectEntries(tmp, after + before + longTerm, h1);
  }

  /** An unmodified list that is long enough names every current reference, and one that is not names the first ones. */
  lemma UnmodifiedList<T>(all: seq<T>, h: ListHeader)
    requires all != [] && !h.modified
    ensures h.active >= |all| ==> List(all, h)[..|all|] == all
    ensures h.active < |all| ==> List(all, h) == all[..h.active]
    ensures forall i, j :: 0 <= i < h.active && j == i + |all| && j < h.active ==> List(all, h)[i] == List(all, h)[j]
  {
    forall i | 0 <= i < |all|
      ensures i % |all| == i
    {
      ModUnique(i, |all|, 0, i);
    }
    forall i, j | 0 <= i < h.active && j == i + |all| && j < h.active
      ensures List(all, h)[i] == List(all, h)[j]
    {
      ModUnique(j, |all|, i / |all| + 1, i % |all|);
    }
  }

  /** List 1 starts where list 0 turns: the short-term stretches are exchanged, the long-term one is not. */
  lemma ListsSwapDirections<T>(before: seq<T>, after: seq<T>, longTerm: seq<T>, h0: ListHeader, h1: ListHeader)
    requires before + after + longTerm != [] && !h0.modified && !h1.modified
    requires h0.active >= |before| + |after| + |longTerm| && h1.active >= |before| + |after| + |longTerm|
    ensures var n := |before| + |after|;
            var l0, l1 := List(before + after + longTerm, h0), List(after + before + longTerm, h1);
            && l0[..n] == before + after && l1[..n] == after + before
            && l0[n..n + |longTerm|] == l1[n..n + |longTerm|] == longTerm
  {
    var n, t := |before| + |after|, |before| + |after| + |longTerm|;
    var l0, l1 := List(before + after + longTerm, h0), List(after + before + longTerm, h1);
    UnmodifiedList(before + after + longTerm, h0);
    UnmodifiedList(after + before + longTerm, h1);
    assert l0[..n] == l0[..t][..n] && l1[..n] == l1[..t][..n];
    assert l0[n..t] == l0[..t][n..] && l1[n..t] == l1[..t][n..];
  }

  /** The first place of x. */
  ghost function PlaceOf<T>(all: seq<T>, x: T): (i: nat)
    requires x in all
    ensures i < |all| && all[i] == x
  {
    if all[0] == x then 0 else 1 + PlaceOf(all[1..], x)
  }

  /** What an encoder sends for a list of its own choice. */
  ghost function EntriesFor<T>(all: seq<T>, want: seq<T>): (es: seq<nat>)
    requires forall x :: x in want ==> x in all
    ensures |es| == |want| && forall k :: 0 <= k < |es| ==> es[k] < |all| && all[es[k]] == want[k]
  {
    seq(|want|, k requires 0 <= k < |want| => PlaceOf(all, want[k]))
  }

  /** Any list of current references can be sent, with repetitions and in any order, and is what is built. */
  lemma AnyListArrives<T>(all: seq<T>, want: seq<T>)
    requires all != [] && forall x :: x in want ==> x in all
    ensures var h := ListHeader(|want|, true, EntriesFor(all, want)); ValidHeader(h, |all|) && List(all, h) == want
  {
    var h := ListHeader(|want|, true, EntriesFor(all, want));
    assert forall k :: 0 <= k < |want| ==> List(all, h)[k] == all[h.entries[k]];
  }
}
