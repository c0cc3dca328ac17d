/** Initial reference lists of H.264 (section 8.2.4.2): P, B and field lists. */
module H264RefLists {
  import opened Sorting
  import opened H264Modify

  function PocAsc(r: Ref): int { if r.Null? then 0 else r.poc }

  function PocDesc(r: Ref): int { -PocAsc(r) }

  function PicNumDesc(r: Ref): int { if r.Null? then 0 else -r.picNum }

  function LongTermAsc(r: Ref): int { if r.Null? then 0 else r.longTermPicNum }

  /** P lists: short-term by falling picture number, then long-term by rising long-term number. */
  method ConstructP(shorts: seq<Ref>, longs: seq<Ref>) returns (list: seq<Ref>)
    ensures multiset(list) == multiset(shorts) + multiset(longs)
    ensures |list| == |shorts| + |longs|
    ensures SortedBy(list[..|shorts|], PicNumDesc) && multiset(list[..|shorts|]) == multiset(shorts)
    ensures SortedBy(list[|shorts|..], LongTermAsc) && multiset(list[|shorts|..]) == multiset(longs)
    ensures forall i, j :: 0 <= i < j < |shorts| && list[i].Ref? && list[j].Ref? ==> list[i].picNum >= list[j].picNum
    ensures forall i, j :: |shorts| <= i < j < |list| && list[i].Ref? && list[j].Ref? ==>
              list[i].longTermPicNum <= list[j].longTermPicNum
  {
    list := SortBy(shorts, PicNumDesc);
    var pos := |list|;
    list := list + longs;
    list := list[..pos] + SortBy(list[pos..], LongTermAsc);
    SortBySorts(shorts, PicNumDesc);
    SortBySorts(longs, LongTermAsc);
    assert list[..pos] == SortBy(shorts, PicNumDesc) && list[pos..] == SortBy(longs, LongTermAsc);
    assert list == list[..pos] + list[pos..];
    assert forall i :: pos <= i < |list| ==> list[i] == list[pos..][i - pos];
  }

  /** Position of the first picture after the current one in the given order. */
  method Split(list: seq<Ref>, key: Ref -> int, current: int) returns (pos: nat)
    ensures pos <= |list| && (forall i :: 0 <= i < pos ==> key(list[i]) <= current)
    ensures pos < |list| ==> key(list[pos]) > current
  {
    pos := 0;
    while pos < |list|
      invariant pos <= |list| && forall i :: 0 <= i < pos ==> key(list[i]) <= current
    {
      if key(list[pos]) > current {
        break;
      }
      pos := pos + 1;
    }
  }

  /** A short-term part: the contents of shorts, a first half at smaller keys turned round, a second half in order. */
  ghost predicate Halves(s: seq<Ref>, p: nat, shorts: seq<Ref>, key: Ref -> int, opposite: Ref -> int, current: int) {
    && p <= |s| && multiset(s) == multiset(shorts)
    && StrictBy(s[..p], opposite) && StrictBy(s[p..], key)
    && (forall i :: 0 <= i < p ==> key(s[..p][i]) < current)
    && (forall i :: 0 <= i < |s| - p ==> key(s[p..][i]) > current)
  }

  lemma DistinctPart(s: seq<Ref>, key: Ref -> int, opposite: Ref -> int, p: nat)
    requires p <= |s| && StrictBy(s, key) && forall r: Ref :: opposite(r) == -key(r)
    ensures DistinctBy(s[..p], opposite) && StrictBy(s[p..], key)
  {
    forall i, j | 0 <= i < j < p
      ensures opposite(s[..p][i]) != opposite(s[..p][j])
    {
      assert key(s[i]) < key(s[j]);
    }
    forall i, j | 0 <= i < j < |s| - p
      ensures key(s[p..][i]) < key(s[p..][j])
    {
      assert key(s[p + i]) < key(s[p + j]);
    }
  }

  lemma Rejoined(t: seq<Ref>, h: seq<Ref>, p: nat)
    requires p <= |t| && multiset(h) == multiset(t[..p])
    ensures |h| == p && multiset(h + t[p..]) == multiset(t)
    ensures (h + t[p..])[..p] == h && (h + t[p..])[p..] == t[p..]
  {
    assert |multiset(h)| == |h|;
    assert t == t[..p] + t[p..];
  }

  lemma HalvesFit(t: seq<Ref>, h: seq<Ref>, p: nat, shorts: seq<Ref>, key: Ref -> int, opposite: Ref -> int,
                  current: int)
    requires p <= |t| && StrictBy(t, key) && multiset(t) == multiset(shorts) && h == SortBy(t[..p], opposite)
    requires forall r: Ref :: opposite(r) == -key(r)
    requires forall i :: 0 <= i < |t| ==> key(t[i]) != current
    requires forall i :: 0 <= i < p ==> key(t[i]) <= current
    requires p < |t| ==> key(t[p]) > current
    ensures Halves(h + t[p..], p, shorts, key, opposite, current)
  {
    hide SortBy;
    DistinctPart(t, key, opposite, p);
    SortByDistinct(t[..p], opposite);
    Rejoined(t, h, p);
    KeysAround(t, h, p, key, current);
  }

  lemma KeysAround(t: seq<Ref>, h: seq<Ref>, p: nat, key: Ref -> int, current: int)
    requires p <= |t| && StrictBy(t, key) && |h| == p && multiset(h) == multiset(t[..p])
    requires forall i :: 0 <= i < |t| ==> key(t[i]) != current
    requires forall i :: 0 <= i < p ==> key(t[i]) <= current
    requires p < |t| ==> key(t[p]) > current
    ensures forall i :: 0 <= i < p ==> key(h[i]) < current
    ensures forall i :: 0 <= i < |t| - p ==> key(t[p..][i]) > current
  {
    forall i | 0 <= i < p
      ensures key(h[i]) < current
    {
      assert h[i] in multiset(t[..p]);
    }
    forall i | 0 <= i < |t| - p
      ensures key(t[p..][i]) > current
    {
      assert i > 0 ==> key(t[p]) < key(t[p + i]);
    }
  }

  method BuildShort(shorts: seq<Ref>, key: Ref -> int, opposite: Ref -> int, current: int)
    returns (s: seq<Ref>, pos: nat)
    requires DistinctBy(shorts, key) && forall r: Ref :: opposite(r) == -key(r)
    requires forall r :: r in shorts ==> key(r) != current
    ensures Halves(s, pos, shorts, key, opposite, current)
  {
    s := SortBy(shorts, key);
    SortByDistinct(shorts, key);
    assert forall i :: 0 <= i < |s| ==> s[i] in multiset(shorts);
    pos := Split(s, key, current);
    HalvesFit(s, SortBy(s[..pos], opposite), pos, shorts, key, opposite, current);
    s := SortBy(s[..pos], opposite) + s[pos..];
  }

  /** Seen from the other direction, the two halves change places: list 1 is list 0 rotated at the split. */
  lemma Rotated(s0: seq<Ref>, p0: nat, s1: seq<Ref>, p1: nat, shorts: seq<Ref>, current: int)
    requires Halves(s0, p0, shorts, PocAsc, PocDesc, current) && Halves(s1, p1, shorts, PocDesc, PocAsc, -current)
    ensures s1 == s0[p0..] + s0[..p0] && p1 == |s0| - p0
  {
    var a, b, c, d := s0[..p0], s0[p0..], s1[p1..], s1[..p1];
    Glue(s0, p0);
    Glue(s1, p1);
    SplitIsUnique(a, b, c, d, Before(current));
    StrictIsUnique(a, c, PocDesc);
    StrictIsUnique(b, d, PocAsc);
  }

  function Before(current: int): Ref -> bool { (r: Ref) => PocAsc(r) < current }

  lemma Glue(s: seq<Ref>, p: nat)
    requires p <= |s|
    ensures s == s[..p] + s[p..]
    ensures multiset(s) == multiset(s[..p] + s[p..]) == multiset(s[p..] + s[..p])
  {
    assert s == s[..p] + s[p..];
  }

  // ---- B lists ------------------------------------------------------------------------------------------

  method ListsAreEqual(a: seq<Ref>, b: seq<Ref>) returns (eq: bool)
    ensures eq <==> a == b
  {
    if |a| != |b| {
      return false;
    }
    for i := 0 to |a|
      invariant a[..i] == b[..i]
    {
      if a[i] != b[i] {
        return false;
      }
      assert a[..i + 1] == a[..i] + [a[i]] && b[..i + 1] == b[..i] + [b[i]];
    }
    assert a[..|a|] == a && b[..|b|] == b;
    eq := true;
  }

  /** Pictures before the current one by falling order count, then those after it by rising order count. */
  predicate NearestFirst(s: seq<Ref>, p: nat, current: int) {
    && p <= |s|
    && (forall i :: 0 <= i < p && s[i].Ref? ==> s[i].poc < current)
    && (forall i :: p <= i < |s| && s[i].Ref? ==> s[i].poc > current)
    && (forall i, j :: 0 <= i < j < p && s[i].Ref? && s[j].Ref? ==> s[i].poc > s[j].poc)
    && (forall i, j :: p <= i < j < |s| && s[i].Ref? && s[j].Ref? ==> s[i].poc < s[j].poc)
  }

  lemma HalvesAreNearest(s: seq<Ref>, p: nat, shorts: seq<Ref>, current: int)
    requires Halves(s, p, shorts, PocAsc, PocDesc, current)
    ensures NearestFirst(s, p, current)
  {
    var a, b := s[..p], s[p..];
    assert forall i :: 0 <= i < p ==> s[i] == a[i];
    assert forall i :: p <= i < |s| ==> s[i] == b[i - p];
  }

  function SwapFirst(s: seq<Ref>): seq<Ref>
    requires |s| > 1
  {
    s[0 := s[1]][1 := s[0]]
  }

  function IdOf(r: Ref): int { if r.Null? then -1 else r.id }

  /** B lists. With distinct order counts, none that of the current picture: list 0 begins with the pictures before
      the current one, nearest first, then those after it, nearest first; list 1 has the halves in the other order;
      both end with the long-term pictures. Two lists that would be equal differ in their first two entries. */
  method ConstructB(shorts: seq<Ref>, longs: seq<Ref>, current: int)
    returns (list0: seq<Ref>, list1: seq<Ref>, ghost split: nat)
    requires DistinctBy(shorts, PocAsc) && forall r :: r in shorts ==> PocAsc(r) != current
    requires DistinctBy(shorts + longs, IdOf)
    ensures |list0| == |list1| == |shorts| + |longs|
    ensures Halves(list0[..|shorts|], split, shorts, PocAsc, PocDesc, current)
    ensures NearestFirst(list0[..|shorts|], split, current)
    ensures SortedBy(list0[|shorts|..], LongTermAsc) && multiset(list0[|shorts|..]) == multiset(longs)
    ensures forall i, j :: |shorts| <= i < j < |list0| && list0[i].Ref? && list0[j].Ref? ==>
              list0[i].longTermPicNum <= list0[j].longTermPicNum
    ensures var plain := list0[split..|shorts|] + list0[..split] + list0[|shorts|..];
            list1 == if |plain| > 1 && plain == list0 then SwapFirst(plain) else plain
    ensures |list1| > 1 ==> list0 != list1
    ensures multiset(list1) == multiset(list0) == multiset(shorts) + multiset(longs)
  {
    var pos, pos1;
    list0, pos := BuildShort(shorts, PocAsc, PocDesc, current);
    split := pos;
    list1, pos1 := BuildShort(shorts, PocDesc, PocAsc, -current);
    Rotated(list0, pos, list1, pos1, shorts, current);
    ghost var short0, short1 := list0, list1;
    var tail := SortBy(longs, LongTermAsc);
    SortBySorts(longs, LongTermAsc);
    list0 := list0 + tail;
    list1 := list1 + tail;
    ghost var plain := list1;
    SameContents(short0, tail, pos, shorts, longs);
    HalvesAreNearest(short0, pos, shorts, current);
    assert forall i :: |shorts| <= i < |list0| ==> list0[i] == tail[i - |shorts|];
    if |list1| > 1 {
      var equal := ListsAreEqual(list0, list1);
      if equal {
        FirstTwoDiffer(list0, shorts + longs);
        list1 := SwapFirst(list1);
      }
    }
  }

  lemma SameContents(short0: seq<Ref>, tail: seq<Ref>, p: nat, shorts: seq<Ref>, longs: seq<Ref>)
    requires multiset(short0) == multiset(shorts) && multiset(tail) == multiset(longs) && p <= |short0|
    ensures |short0| == |shorts| && |tail| == |longs|
    ensures multiset(short0 + tail) == multiset(shorts + longs) == multiset(shorts) + multiset(longs)
    ensures multiset(short0[p..] + short0[..p] + tail) == multiset(shorts) + multiset(longs)
    ensures (short0 + tail)[..|shorts|] == short0 && (short0 + tail)[|shorts|..] == tail
    ensures (short0 + tail)[p..|shorts|] == short0[p..] && (short0 + tail)[..p] == short0[..p]
  {
    assert |short0| == |multiset(short0)| && |tail| == |multiset(tail)|;
    assert short0 == short0[..p] + short0[p..];
  }

  lemma FirstTwoDiffer(s: seq<Ref>, all: seq<Ref>)
    requires |s| > 1 && multiset(s) == multiset(all) && DistinctBy(all, IdOf)
    ensures s[0] != s[1] && SwapFirst(s) != s && multiset(SwapFirst(s)) == multiset(s)
  {
    DistinctPermutes(all, s, IdOf);
    var t := SwapFirst(s);
    assert IdOf(s[0]) != IdOf(s[1]);
    assert t[0] == s[1];
    assert s == [s[0], s[1]] + s[2..] && t == [s[1], s[0]] + s[2..];
  }
}
