/** The reference part of `start_picture` of the Vulkan H.265 element: the table of reference pictures
    and, for each current set, the index of every entry in that table. */
module H265Vulkan {
  import opened Seqs
  import opened H265DpbSpec
  import opened H265Marking
  import opened H265Machine
  import opened H265Run
  import opened H265Dpb
  import opened H265Decoder

  const MAX_REFS := 16
  const MAX_SET := 8

  /** The pictures of a set array, without the holes. */
  function NonNull(a: seq<Picture?>): (r: seq<Picture>)
    ensures |r| <= |a|
  {
    if a == [] then []
    else if a[|a| - 1] == null then NonNull(a[..|a| - 1])
    else NonNull(a[..|a| - 1]) + [a[|a| - 1]]
  }

  lemma {:induction false} NonNullMembers(a: seq<Picture?>)
    ensures forall i :: 0 <= i < |NonNull(a)| ==> NonNull(a)[i] in a
  {
    if a != [] {
      NonNullMembers(a[..|a| - 1]);
      assert a == a[..|a| - 1] + [a[|a| - 1]];
    }
  }

  lemma NonNullNext(a: seq<Picture?>, j: nat)
    requires j < |a|
    ensures NonNull(a[..j + 1]) == if a[j] == null then NonNull(a[..j]) else NonNull(a[..j]) + [a[j]]
  {
    assert a[..j + 1][..j] == a[..j];
  }

  lemma {:induction false} NonNullPrefix(a: seq<Picture?>, j: nat)
    requires j <= |a|
    ensures NonNull(a[..j]) <= NonNull(a)
    ensures NonNull(a[..0]) == []
  {
    if j < |a| {
      NonNullPrefix(a[..|a| - 1], j);
      assert a[..|a| - 1][..j] == a[..j];
    } else {
      assert a[..j] == a;
    }
  }

  /** Distinct entries that all occur in a list are no more than the list is long. */
  lemma DistinctEntriesFit(entries: seq<Picture>, list: seq<Picture>)
    requires Injective(entries) && forall i :: 0 <= i < |entries| ==> entries[i] in list
    ensures |entries| <= |list|
  {
    InjectiveCard(entries);
    SetOfSeqCard(list);
    assert forall x :: x in entries ==> x in list;
    SubsetCard(set x | x in entries, set x | x in list);
  }

  lemma {:induction false} InjectiveCard<T>(s: seq<T>)
    requires Injective(s)
    ensures |set x | x in s| == |s|
  {
    if s != [] {
      var t, x := s[..|s| - 1], s[|s| - 1];
      InjectiveCard(t);
      assert (set y | y in s) == (set y | y in t) + {x};
      assert x !in t;
    }
  }

  lemma {:induction false} NonNullInjective(a: seq<Picture?>)
    requires forall i, j :: 0 <= i < j < |a| && a[i] != null ==> a[i] != a[j]
    ensures Injective(NonNull(a))
  {
    if a != [] {
      var b := a[..|a| - 1];
      NonNullInjective(b);
      NonNullMembers(b);
      if a[|a| - 1] != null {
        InjectiveAppend(NonNull(b), a[|a| - 1]);
      }
    }
  }

  /** A set in which no position occurs twice leaves no picture twice in its array. */
  lemma HeldOnce(a: array<Picture?>, list: seq<Picture>, s: seq<int>)
    requires Holds(a, list, s) && Injective(list) && FoundOnce(s)
    ensures Injective(NonNull(a[..|s|]))
  {
    NonNullInjective(a[..|s|]);
  }

  lemma FoundOnceInUnmarked(pics: seq<Pic>, s: Slice, maxLsb: nat)
    requires maxLsb > 0 && NamesOnce(s.rps, maxLsb) && Each(pics, LowBitsKept(maxLsb))
    ensures var sets := Derive(Unmarked(pics, s), s.rps);
            && FoundOnce(sets.stBefore) && FoundOnce(sets.stAfter) && FoundOnce(sets.ltCurr)
            && |sets.stBefore| == |s.rps.stBefore| && |sets.stAfter| == |s.rps.stAfter|
            && |sets.ltCurr| == |s.rps.ltCurr|
  {
    var u := Unmarked(pics, s);
    forall i | 0 <= i < |u|
      ensures u[i].pocLsb == u[i].poc % maxLsb
    {
      assert LowBitsKept(maxLsb)(pics[i]);
    }
    SetsFoundOnce(u, s.rps, maxLsb);
  }

  /** The positions of the references among the first n pictures, in order. */
  function ReferencesTo(pics: seq<Pic>, n: nat): (r: seq<nat>)
    requires n <= |pics|
    ensures |r| == CountTo(pics, n, Referenced)
    ensures forall k :: 0 <= k < |r| ==> r[k] < n && pics[r[k]].ref
    ensures forall k, m :: 0 <= k < m < |r| ==> r[k] < r[m]
  {
    if n == 0 then []
    else if pics[n - 1].ref then ReferencesTo(pics, n - 1) + [n - 1]
    else ReferencesTo(pics, n - 1)
  }

  lemma {:induction false} EveryReferenceListed(pics: seq<Pic>, n: nat, i: nat) returns (k: nat)
    requires i < n <= |pics| && pics[i].ref
    ensures k < |ReferencesTo(pics, n)| && ReferencesTo(pics, n)[k] == i
  {
    if i == n - 1 {
      k := |ReferencesTo(pics, n)| - 1;
    } else {
      k := EveryReferenceListed(pics, n - 1, i);
    }
  }

  /** No two references have one order count. */
  ghost predicate DistinctCounts(list: seq<Picture>)
    reads list
  {
    forall i, j :: 0 <= i < j < |list| && list[i].ref && list[j].ref ==> list[i].picOrderCnt != list[j].picOrderCnt
  }

  /** What the array holds are references of the list. */
  ghost predicate ReferencesIn(a: array<Picture?>, list: seq<Picture>)
    reads a, list
  {
    forall k :: 0 <= k < a.Length && a[k] != null ==> a[k] in list && a[k].ref
  }

  /** The part of the parser's picture data that describes references. */
  class PictureData {
    const refPics: array<Picture?>
    const picOrderCntVal: array<int>
    const isLongTerm: array<bool>
    const stCurrBefore: array<int>
    const stCurrAfter: array<int>
    const ltCurr: array<int>

    ghost predicate Valid() {
      && refPics.Length == picOrderCntVal.Length == isLongTerm.Length == MAX_REFS
      && stCurrBefore.Length == stCurrAfter.Length == ltCurr.Length == MAX_SET
      && picOrderCntVal !in {stCurrBefore, stCurrAfter, ltCurr}
      && stCurrBefore != stCurrAfter && stCurrBefore != ltCurr && stCurrAfter != ltCurr
    }

    constructor ()
      ensures Valid() && fresh(refPics) && fresh(picOrderCntVal) && fresh(isLongTerm)
      ensures fresh(stCurrBefore) && fresh(stCurrAfter) && fresh(ltCurr)
    {
      refPics := new Picture?[MAX_REFS](_ => null);
      picOrderCntVal := new int[MAX_REFS](_ => 0);
      isLongTerm := new bool[MAX_REFS](_ => false);
      stCurrBefore := new int[MAX_SET](_ => 0);
      stCurrAfter := new int[MAX_SET](_ => 0);
      ltCurr := new int[MAX_SET](_ => 0);
    }

    /** The rows of the table are the pictures at these positions of the list, with their data. */
    ghost predicate Rowed(list: seq<Picture>, at: seq<nat>)
      reads refPics, picOrderCntVal, isLongTerm, list
    {
      && |at| <= refPics.Length == picOrderCntVal.Length == isLongTerm.Length
      && forall k :: 0 <= k < |at| ==>
           && at[k] < |list| && refPics[k] == list[at[k]]
           && picOrderCntVal[k] == list[at[k]].picOrderCnt && isLongTerm[k] == list[at[k]].longTerm
    }

    /** The first n rows of the table are n different references of the list, with their data, and no reference
        is missing. */
    ghost predicate Tabled(list: seq<Picture>, n: nat)
      reads refPics, picOrderCntVal, isLongTerm, list
    {
      && n <= refPics.Length == picOrderCntVal.Length == isLongTerm.Length
      && (forall k :: 0 <= k < n ==>
            && refPics[k] != null && refPics[k] in list && refPics[k].ref
            && picOrderCntVal[k] == refPics[k].picOrderCnt && isLongTerm[k] == refPics[k].longTerm)
      && (forall k, m :: 0 <= k < m < n ==> refPics[k] != refPics[m])
      && (forall p :: p in list && p.ref ==> p in refPics[..n])
    }

    method AddRow(list: seq<Picture>, n: nat, ghost at: seq<nat>, i: nat)
      requires Valid() && Rowed(list, at) && |at| == n < MAX_REFS && i < |list|
      modifies refPics, picOrderCntVal, isLongTerm
      ensures Rowed(list, at + [i])
    {
      var other := list[i];
      refPics[n], picOrderCntVal[n], isLongTerm[n] := other, other.picOrderCnt, other.longTerm;
    }

    /** Fills the table from the buffer, in its order; fails exactly when there are more references than rows. */
    method FillRefPics(list: seq<Picture>, ghost pics: seq<Pic>) returns (ok: bool, n: nat)
      requires Valid() && Injective(list) && Shows(list, pics)
      modifies refPics, picOrderCntVal, isLongTerm
      ensures n <= MAX_REFS
      ensures ok <==> Count(pics, Referenced) <= MAX_REFS
      ensures ok ==> n == Count(pics, Referenced) && Rowed(list, ReferencesTo(pics, |pics|)) && Tabled(list, n)
    {
      hide Rowed, Tabled, Injective;
      n := 0;
      NoRows(list);
      for i := 0 to |list|
        invariant n <= MAX_REFS && n == CountTo(pics, i, Referenced) && Rowed(list, ReferencesTo(pics, i))
      {
        var other := list[i];
        assert other.View() == pics[i];
        CountPrefix(pics, i + 1, Referenced);
        if !other.ref {
          continue;
        }
        if n >= MAX_REFS {
          return false, n;
        }
        AddRow(list, n, ReferencesTo(pics, i), i);
        n := n + 1;
      }
      RowedIsTabled(list, pics);
      ok := true;
    }

    lemma NoRows(list: seq<Picture>)
      requires Valid()
      ensures Rowed(list, [])
    {
    }

    lemma RowedIsTabled(list: seq<Picture>, pics: seq<Pic>)
      requires Injective(list) && Shows(list, pics) && Rowed(list, ReferencesTo(pics, |pics|))
      ensures Tabled(list, Count(pics, Referenced))
    {
      var at := ReferencesTo(pics, |pics|);
      forall k | 0 <= k < |at|
        ensures refPics[k].ref
      {
        assert list[at[k]].View() == pics[at[k]];
      }
      AllRowed(list, pics);
    }

    lemma AllRowed(list: seq<Picture>, pics: seq<Pic>)
      requires Shows(list, pics) && Rowed(list, ReferencesTo(pics, |pics|))
      ensures forall p :: p in list && p.ref ==> p in refPics[..Count(pics, Referenced)]
    {
      var at := ReferencesTo(pics, |pics|);
      forall p | p in list && p.ref
        ensures p in refPics[..|at|]
      {
        var i :| 0 <= i < |list| && list[i] == p;
        assert list[i].View() == pics[i];
        var k := EveryReferenceListed(pics, |pics|, i);
        assert refPics[..|at|][k] == p;
      }
    }

    /** Entry i of the table selects picture e of the reference table. */
    ghost predicate Selects(table: array<int>, i: nat, e: Picture, n: nat)
      requires i < table.Length && n <= refPics.Length
      reads refPics, table
    {
      0 <= table[i] < n && refPics[table[i]] == e
    }

    /** Row of the picture with this order count. */
    method LookUp(poc: int, n: nat) returns (k: nat)
      requires n <= picOrderCntVal.Length
      ensures k <= n
      ensures k < n ==> picOrderCntVal[k] == poc
      ensures forall m :: 0 <= m < k ==> picOrderCntVal[m] != poc
    {
      k := 0;
      while k < n
        invariant k <= n
        invariant forall m :: 0 <= m < k ==> picOrderCntVal[m] != poc
      {
        if picOrderCntVal[k] == poc {
          return;
        }
        k := k + 1;
      }
    }

    /** The i-th index selects from the table exactly the i-th picture of the set, for as many entries as there are
        references; the other indices stay what they were. */
    method FillIndices(a: array<Picture?>, num: nat, table: array<int>, list: seq<Picture>, n: nat)
      requires Valid() && num <= a.Length && table in {stCurrBefore, stCurrAfter, ltCurr}
      requires Tabled(list, n)
      requires DistinctCounts(list)
      requires ReferencesIn(a, list)
      requires |NonNull(a[..num])| <= MAX_SET || n <= MAX_SET
      modifies table
      ensures forall i :: 0 <= i < MAX_SET ==>
                if i < n && i < |NonNull(a[..num])| then Selects(table, i, NonNull(a[..num])[i], n)
                else table[i] == old(table[i])
    {
      hide NonNull, Tabled;
      TableRows(list, n);
      ghost var all, rows := a[..num], Rows(n);
      ghost var entries := NonNull(all);
      NonNullPrefix(all, 0);
      var j := 0;
      for i := 0 to n
        invariant j <= num && NonNull(all[..j]) <= entries
        invariant |NonNull(all[..j])| == if |entries| <= i then |entries| else i
        invariant forall k :: 0 <= k < MAX_SET ==>
                    if k < i && k < |entries| then 0 <= table[k] < n && rows[table[k]] == entries[k]
                    else table[k] == old(table[k])
      {
        var other: Picture?;
        other, j := NextEntry(a, num, j);
        NonNullPrefix(all, j);
        if other != null {
          assert entries[i] == other;
          var k := LookUp(other.picOrderCnt, n);
          RowOf(list, n, other, k);
          if k < n {
            table[i] := k;
          }
        } else {
          assert all[..j] == all;
        }
      }
    }

    /** Steps over the holes of a set array. */
    method NextEntry(a: array<Picture?>, num: nat, start: nat) returns (other: Picture?, j: nat)
      requires start <= num <= a.Length
      ensures start <= j <= num && (other == null ==> j == num)
      ensures NonNull(a[..num][..j]) == NonNull(a[..num][..start]) + if other == null then [] else [other]
      ensures other != null ==> exists k :: 0 <= k < num && a[k] == other
    {
      hide NonNull;
      other, j := null, start;
      while other == null && j < num
        invariant start <= j <= num
        invariant NonNull(a[..num][..j]) == NonNull(a[..num][..start]) + if other == null then [] else [other]
        invariant other != null ==> exists k :: 0 <= k < num && a[k] == other
      {
        NonNullNext(a[..num], j);
        other := a[j];
        j := j + 1;
      }
    }

    lemma EntriesFit(list: seq<Picture>, n: nat, all: seq<Picture?>)
      requires Tabled(list, n)
      requires forall k :: 0 <= k < |all| && all[k] != null ==> all[k] in list && all[k].ref
      requires Injective(NonNull(all))
      ensures |NonNull(all)| <= n
    {
      NonNullMembers(all);
      var entries := NonNull(all);
      forall i | 0 <= i < |entries|
        ensures entries[i] in Rows(n)
      {
        assert entries[i] in all;
        var j :| 0 <= j < |all| && all[j] == entries[i];
        assert all[j] in list && all[j].ref;
        var k :| 0 <= k < n && refPics[k] == entries[i];
        assert Rows(n)[k] == entries[i];
      }
      DistinctEntriesFit(NonNull(all), Rows(n));
    }

    lemma TableRows(list: seq<Picture>, n: nat)
      requires Tabled(list, n)
      ensures n <= refPics.Length == picOrderCntVal.Length && forall k :: 0 <= k < n ==> refPics[k] != null
    {
    }

    ghost function Rows(n: nat): (r: seq<Picture>)
      requires n <= refPics.Length && forall k :: 0 <= k < n ==> refPics[k] != null
      reads refPics
      ensures |r| == n && forall k :: 0 <= k < n ==> r[k] == refPics[k]
    {
      seq(n, k requires 0 <= k < n && refPics[k] != null reads refPics => refPics[k])
    }

    /** Order counts of references are distinct, so the first row with the right count is the picture itself. */
    lemma RowOf(list: seq<Picture>, n: nat, e: Picture, k: nat)
      requires Tabled(list, n)
      requires DistinctCounts(list)
      requires e in list && e.ref && k <= n
      requires k < n ==> picOrderCntVal[k] == e.picOrderCnt
      requires forall m :: 0 <= m < k ==> picOrderCntVal[m] != e.picOrderCnt
      ensures k < n && refPics[k] == e
    {
      assert e in refPics[..n];
      var m :| 0 <= m < n && refPics[m] == e;
      assert k < n;
      assert refPics[k] in list && refPics[k].ref;
      var x :| 0 <= x < |list| && list[x] == refPics[k];
      var y :| 0 <= y < |list| && list[y] == e;
    }

    /** The index table of a set selects, entry by entry, the pictures of its array. */
    ghost predicate Agrees(a: array<Picture?>, num: nat, table: array<int>, n: nat)
      reads refPics, a, table
    {
      num <= a.Length && SelectsAll(NonNull(a[..num]), table, n)
    }

    ghost predicate SelectsAll(entries: seq<Picture>, table: array<int>, n: nat)
      reads refPics, table
    {
      && n <= refPics.Length && |entries| <= table.Length
      && forall i :: 0 <= i < |entries| ==> Selects(table, i, entries[i], n)
    }

    /** The set has room in its table, and any entry beyond the number of references is the first reference. */
    ghost predicate Covered(a: array<Picture?>, num: nat, n: nat)
      requires n <= refPics.Length && num <= a.Length
      reads refPics, a
    {
      CoversAll(NonNull(a[..num]), n)
    }

    ghost predicate CoversAll(entries: seq<Picture>, n: nat)
      requires n <= refPics.Length
      reads refPics
    {
      |entries| <= MAX_SET && forall i :: n <= i < |entries| ==> IsFirst(entries[i], n)
    }

    ghost predicate IsFirst(e: Picture, n: nat)
      requires n <= refPics.Length
      reads refPics
    {
      n > 0 && refPics[0] == e
    }

    /** One index table, from zero: it agrees with its set exactly when the set is covered. */
    method ExportSet(a: array<Picture?>, num: nat, table: array<int>, list: seq<Picture>, n: nat)
      requires Valid() && num <= a.Length && table in {stCurrBefore, stCurrAfter, ltCurr}
      requires Tabled(list, n)
      requires DistinctCounts(list)
      requires ReferencesIn(a, list)
      requires |NonNull(a[..num])| <= MAX_SET || n <= MAX_SET
      requires forall i :: 0 <= i < MAX_SET ==> table[i] == 0
      modifies table
      ensures Agrees(a, num, table, n) <==> Covered(a, num, n)
    {
      hide NonNull, Tabled, SelectsAll, CoversAll;
      TableRows(list, n);
      FillIndices(a, num, table, list, n);
      SelectsIffCovers(NonNull(a[..num]), table, n);
    }

    lemma SelectsIffCovers(entries: seq<Picture>, table: array<int>, n: nat)
      requires n <= refPics.Length && table.Length == MAX_SET
      requires forall i :: 0 <= i < MAX_SET ==>
                 if i < n && i < |entries| then Selects(table, i, entries[i], n) else table[i] == 0
      ensures SelectsAll(entries, table, n) <==> CoversAll(entries, n)
    {
      if |entries| <= MAX_SET {
        forall i | 0 <= i < |entries|
          ensures Selects(table, i, entries[i], n) <==> i < n || IsFirst(entries[i], n)
        {
          assert i >= n ==> table[i] == 0;
        }
      }
    }

    lemma PocsOfList(list: seq<Picture>, pics: seq<Pic>)
      requires Shows(list, pics) && DistinctPocs(pics)
      ensures DistinctCounts(list)
    {
      forall i, j | 0 <= i < j < |list|
        ensures list[i].picOrderCnt != list[j].picOrderCnt
      {
        assert PocsDiffer(pics[i], pics[j]);
        assert list[i].View() == pics[i] && list[j].View() == pics[j];
      }
    }

    /** The picture data starts zeroed. */
    method Reset()
      requires Valid()
      modifies stCurrBefore, stCurrAfter, ltCurr
      ensures forall i :: 0 <= i < MAX_SET ==> stCurrBefore[i] == 0 && stCurrAfter[i] == 0 && ltCurr[i] == 0
    {
      for k := 0 to MAX_SET
        invariant forall i :: 0 <= i < k ==> stCurrBefore[i] == 0 && stCurrAfter[i] == 0 && ltCurr[i] == 0
      {
        stCurrBefore[k], stCurrAfter[k], ltCurr[k] := 0, 0, 0;
      }
    }

    /** Number of pictures in a set array. */
    ghost function Entries(a: array<Picture?>, num: nat): nat
      requires num <= a.Length
      reads a
    {
      |NonNull(a[..num])|
    }

    /** The three index tables. */
    method ExportSets(before: array<Picture?>, b: nat, after: array<Picture?>, f: nat, long: array<Picture?>, l: nat,
                      list: seq<Picture>, n: nat)
      requires Valid() && b <= before.Length && f <= after.Length && l <= long.Length
      requires Tabled(list, n)
      requires DistinctCounts(list)
      requires ReferencesIn(before, list) && ReferencesIn(after, list) && ReferencesIn(long, list)
      requires n <= MAX_SET || Entries(before, b) <= MAX_SET
      requires n <= MAX_SET || Entries(after, f) <= MAX_SET
      requires n <= MAX_SET || Entries(long, l) <= MAX_SET
      requires refPics !in {before, after, long}
      modifies stCurrBefore, stCurrAfter, ltCurr
      ensures Agrees(before, b, stCurrBefore, n) <==> Covered(before, b, n)
      ensures Agrees(after, f, stCurrAfter, n) <==> Covered(after, f, n)
      ensures Agrees(long, l, ltCurr, n) <==> Covered(long, l, n)
    {
      hide NonNull, Tabled, Selects;
      TableRows(list, n);
      Reset();
      ExportSet(before, b, stCurrBefore, list, n);
      ExportSet(after, f, stCurrAfter, list, n);
      ExportSet(long, l, ltCurr, list, n);
    }

    /** The whole export, for the sets in force in the decoder. */
    method ExportReferences(dec: Decoder, r: Rps) returns (ok: bool, n: nat)
      requires Valid() && dec.Valid() && Fits(r) && DistinctPocs(dec.dpb.pics)
      requires dec.Kept(dec.stBefore) && dec.Kept(dec.stAfter) && dec.Kept(dec.ltCurr)
      requires {refPics} !! {dec.ltCurr, dec.ltFoll, dec.stBefore, dec.stAfter, dec.stFoll}
      requires || Count(dec.dpb.pics, Referenced) <= MAX_SET
               || (&& Entries(dec.stBefore, |r.stBefore|) <= MAX_SET && Entries(dec.stAfter, |r.stAfter|) <= MAX_SET
                   && Entries(dec.ltCurr, |r.ltCurr|) <= MAX_SET)
      modifies refPics, picOrderCntVal, isLongTerm, stCurrBefore, stCurrAfter, ltCurr
      ensures ok <==> Count(dec.dpb.pics, Referenced) <= MAX_REFS
      ensures ok ==> n == Count(dec.dpb.pics, Referenced) <= MAX_REFS
      ensures ok ==> Rowed(dec.dpb.picList, ReferencesTo(dec.dpb.pics, |dec.dpb.pics|)) && Tabled(dec.dpb.picList, n)
      ensures ok ==> (Agrees(dec.stBefore, |r.stBefore|, stCurrBefore, n) <==> Covered(dec.stBefore, |r.stBefore|, n))
      ensures ok ==> (Agrees(dec.stAfter, |r.stAfter|, stCurrAfter, n) <==> Covered(dec.stAfter, |r.stAfter|, n))
      ensures ok ==> (Agrees(dec.ltCurr, |r.ltCurr|, ltCurr, n) <==> Covered(dec.ltCurr, |r.ltCurr|, n))
    {
      hide NonNull, Tabled, Selects, DistinctPocs, Rowed, Agrees, Covered, Map;
      var list := dec.dpb.picList;
      ok, n := FillRefPics(list, dec.dpb.pics);
      if !ok {
        return;
      }
      PocsOfList(list, dec.dpb.pics);
      ExportSets(dec.stBefore, |r.stBefore|, dec.stAfter, |r.stAfter|, dec.ltCurr, |r.ltCurr|, list, n);
    }

    /** A set without repetition is covered. */
    lemma OnceIsCovered(a: array<Picture?>, num: nat, list: seq<Picture>, n: nat)
      requires num <= a.Length && num <= MAX_SET
      requires Tabled(list, n) && ReferencesIn(a, list) && Injective(NonNull(a[..num]))
      ensures Covered(a, num, n)
    {
      EntriesFit(list, n, a[..num]);
    }

    /** A header that names no picture twice leaves no picture twice in a current set. */
    method StartOnce(dec: Decoder, s: Slice, reorder: nat, latency: nat, bufferingMinus1: nat,
                     ghost lim: Limits, ghost maxLsb: nat)
      requires dec.Valid() && lim == Limits(dec.dpb.maxNumPics, reorder, latency, bufferingMinus1)
      requires DistinctPocs(dec.dpb.pics) && maxLsb > 0 && Each(dec.dpb.pics, LowBitsKept(maxLsb))
      requires Fits(s.rps) && NamesOnce(s.rps, maxLsb)
      modifies dec, dec.dpb, dec.dpb.Repr, dec.ltCurr, dec.ltFoll, dec.stBefore, dec.stAfter, dec.stFoll
      ensures dec.Valid() && dec.Value() == Start(old(dec.Value()), s, lim)
      ensures DistinctPocs(dec.dpb.pics) && Count(dec.dpb.pics, Referenced) <= Size(s.rps)
      ensures dec.Kept(dec.stBefore) && dec.Kept(dec.stAfter) && dec.Kept(dec.ltCurr)
      ensures Injective(NonNull(dec.stBefore[..|s.rps.stBefore|]))
      ensures Injective(NonNull(dec.stAfter[..|s.rps.stAfter|]))
      ensures Injective(NonNull(dec.ltCurr[..|s.rps.ltCurr|]))
    {
      hide NonNull, DistinctPocs, Map, Start, Derive, NamesOnce, LowBitsKept;
      hide Shows, Injective, FoundOnce, Holds, Each, Count, Unmarked;
      ghost var list, sets := dec.dpb.picList, Derive(Unmarked(dec.dpb.pics, s), s.rps);
      StartKeepsDistinct(dec.Value(), s, lim);
      FoundOnceInUnmarked(dec.dpb.pics, s, maxLsb);
      dec.StartPicture(s, reorder, latency, bufferingMinus1, lim);
      HeldOnce(dec.stBefore, list, sets.stBefore);
      HeldOnce(dec.stAfter, list, sets.stAfter);
      HeldOnce(dec.ltCurr, list, sets.ltCurr);
    }

    /** Sets that hold no picture twice, and at most eight, are all covered. */
    method ExportOnce(dec: Decoder, r: Rps) returns (ok: bool, n: nat)
      requires Valid() && dec.Valid() && Fits(r) && DistinctPocs(dec.dpb.pics)
      requires dec.Kept(dec.stBefore) && dec.Kept(dec.stAfter) && dec.Kept(dec.ltCurr)
      requires {refPics} !! {dec.ltCurr, dec.ltFoll, dec.stBefore, dec.stAfter, dec.stFoll}
      requires |r.stBefore| <= MAX_SET && |r.stAfter| <= MAX_SET && |r.ltCurr| <= MAX_SET
      requires Injective(NonNull(dec.stBefore[..|r.stBefore|])) && Injective(NonNull(dec.stAfter[..|r.stAfter|]))
      requires Injective(NonNull(dec.ltCurr[..|r.ltCurr|]))
      modifies refPics, picOrderCntVal, isLongTerm, stCurrBefore, stCurrAfter, ltCurr
      ensures ok <==> Count(dec.dpb.pics, Referenced) <= MAX_REFS
      ensures ok ==> Agrees(dec.stBefore, |r.stBefore|, stCurrBefore, n)
      ensures ok ==> Agrees(dec.stAfter, |r.stAfter|, stCurrAfter, n)
      ensures ok ==> Agrees(dec.ltCurr, |r.ltCurr|, ltCurr, n)
    {
      hide NonNull, Tabled, DistinctPocs, Rowed, Agrees, Covered, Map, Shows, Injective, Count;
      ok, n := ExportReferences(dec, r);
      if ok {
        OnceIsCovered(dec.stBefore, |r.stBefore|, dec.dpb.picList, n);
        OnceIsCovered(dec.stAfter, |r.stAfter|, dec.dpb.picList, n);
        OnceIsCovered(dec.ltCurr, |r.ltCurr|, dec.dpb.picList, n);
      }
    }

    /** The reference part of a picture's start, from the header alone: a header that names no picture twice, at
        most eight in each current set, gives index tables that agree with the decoder's sets. */
    method StartAndExport(dec: Decoder, s: Slice, reorder: nat, latency: nat, bufferingMinus1: nat,
                          ghost lim: Limits, ghost maxLsb: nat) returns (ok: bool, n: nat)
      requires Valid() && dec.Valid() && lim == Limits(dec.dpb.maxNumPics, reorder, latency, bufferingMinus1)
      requires {refPics} !! {dec.ltCurr, dec.ltFoll, dec.stBefore, dec.stAfter, dec.stFoll}
      requires DistinctPocs(dec.dpb.pics) && maxLsb > 0 && Each(dec.dpb.pics, LowBitsKept(maxLsb))
      requires Fits(s.rps) && NamesOnce(s.rps, maxLsb)
      requires |s.rps.stBefore| <= MAX_SET && |s.rps.stAfter| <= MAX_SET && |s.rps.ltCurr| <= MAX_SET
      modifies dec, dec.dpb, dec.dpb.Repr, dec.ltCurr, dec.ltFoll, dec.stBefore, dec.stAfter, dec.stFoll
      modifies refPics, picOrderCntVal, isLongTerm, stCurrBefore, stCurrAfter, ltCurr
      ensures dec.Valid() && dec.Value() == Start(old(dec.Value()), s, lim)
      ensures ok <==> Count(dec.dpb.pics, Referenced) <= MAX_REFS
      ensures Size(s.rps) <= MAX_REFS ==> ok
      ensures ok ==> Agrees(dec.stBefore, |s.rps.stBefore|, stCurrBefore, n)
      ensures ok ==> Agrees(dec.stAfter, |s.rps.stAfter|, stCurrAfter, n)
      ensures ok ==> Agrees(dec.ltCurr, |s.rps.ltCurr|, ltCurr, n)
    {
      hide NonNull, DistinctPocs, Agrees, Map, Start, NamesOnce, Shows, Injective, Each, Count;
      StartOnce(dec, s, reorder, latency, bufferingMinus1, lim, maxLsb);
      ok, n := ExportOnce(dec, s.rps);
    }

    /** Three pictures of a new decoder, the third naming the second one three times: the third index is never written,
        stays zero, and so selects the first reference. */
    method RepeatedEntryIsLost(dec: Decoder, ghost lim: Limits) returns (ok: bool, n: nat)
      requires Valid() && dec.Valid() && lim == Limits(dec.dpb.maxNumPics, 0, 0, 15)
      requires dec.Value() == Run(Initial, [FirstPicture(), SecondPicture()], lim)
      requires {refPics} !! {dec.ltCurr, dec.ltFoll, dec.stBefore, dec.stAfter, dec.stFoll}
      modifies dec, dec.dpb, dec.dpb.Repr, dec.ltCurr, dec.ltFoll, dec.stBefore, dec.stAfter, dec.stFoll
      modifies refPics, picOrderCntVal, isLongTerm, stCurrBefore, stCurrAfter, ltCurr
      ensures ok && n == 2 && Entries(dec.ltCurr, 3) == 3
      ensures !Agrees(dec.ltCurr, 3, ltCurr, n)
    {
      hide Start, Derive, NonNull, Map, Agrees, Tabled, Unmarked, Injective, Pairwise, Count, Rowed;
      hide ReferencesTo, DistinctPocs, Run;
      var s := ThriceNamed();
      ghost var list := dec.dpb.picList;
      TwoReferencesReached(lim);
      ThriceNamedLeavesBoth(dec.Value(), lim);
      BothInUse([TWO_REFERENCES[0], AsLong(TWO_REFERENCES[1])]);
      TwoDiffer();
      assert list[1].View() == TWO_REFERENCES[1];
      dec.StartPicture(s, 0, 0, 15, lim);
      ThreeTimes(dec.ltCurr, list[1]);
      ok, n := ExportReferences(dec, s.rps);
      FirstIsAnother(dec.dpb.picList, dec.dpb.pics, list[1]);
    }

    lemma FirstIsAnother(list: seq<Picture>, pics: seq<Pic>, p: Picture)
      requires Shows(list, pics) && pics == [TWO_REFERENCES[0], AsLong(TWO_REFERENCES[1])]
      requires p.systemFrameNumber == 1 && Rowed(list, ReferencesTo(pics, |pics|))
      ensures !CoversAll([p, p, p], 2)
    {
      assert list[0].View() == pics[0];
      assert ReferencesTo(pics, 2) == [0, 1];
      assert !IsFirst([p, p, p][2], 2);
    }
  }

  const TWO_REFERENCES: seq<Pic> :=
    [Pic(0, 0, 0, true, true, false, false, 0), Pic(1, 1, 1, true, true, false, false, 0)]

  function FirstPicture(): Slice {
    Slice(0, 0, 0, true, Rps([], [], [], [], []), true, true, true, false)
  }

  function SecondPicture(): Slice {
    Slice(1, 1, 1, true, Rps([], [], [0], [], []), false, false, false, false)
  }

  /** A reference that has been output. */
  predicate Shown(p: Pic) { p.ref && !p.needed }

  /** Without reordering a picture is output as soon as it is stored. */
  lemma ShownAtOnce(st: State, s: Slice, lim: Limits)
    requires Each(st.pics, Shown) && lim.reorder == 0 && s.outputFlag
    ensures Finish(st, s, lim).pics == st.pics + [Stored(NewPic(s)).(needed := false)]
  {
    var p, n := Stored(NewPic(s)), |st.pics|;
    FilterAll(st.pics, n, InUse);
    assert Map(st.pics, Aged) == st.pics;
    var r := Insert(st, NewPic(s));
    assert r.pics == st.pics + [p];
    CountAt(r.pics, n, Waiting);
    BumpWhileUnfolds(r, lim, 0);
    assert Lowest(r.pics) == n;
    BumpWhileUnfolds(BumpOnce(r, false), lim, 0);
  }

  /** While nothing waits, nothing is output before decoding. */
  lemma NothingShown(st: State, s: Slice, lim: Limits)
    requires !s.ClearDpb() && Each(Marked(st.pics, s), Shown)
    ensures Start(st, s, lim).pics == Marked(st.pics, s)
  {
    hide Marked;
    var m := Marked(st.pics, s);
    FilterAll(m, |m|, InUse);
    StartBumps(st, s, lim);
    BumpWhileUnfolds(Cleaned(st, s), lim, lim.bufferingMinus1 + 1);
  }

  /** Two reference pictures of a new decoder, the second naming the first. */
  lemma TwoReferencesReached(lim: Limits)
    requires lim.reorder == 0
    ensures Run(Initial, [FirstPicture(), SecondPicture()], lim).pics == TWO_REFERENCES
  {
    hide Start, Finish;
    var a, b := FirstPicture(), SecondPicture();
    assert [a][..0] == [] && [a, b][..1] == [a];
    assert Marked([], a) == [];
    NothingShown(Initial, a, lim);
    ShownAtOnce(Start(Initial, a, lim), a, lim);
    var st := Run(Initial, [a], lim);
    assert Run(Initial, [], lim) == Initial && Run(Initial, [a], lim) == Step(Initial, a, lim);
    assert st.pics == [TWO_REFERENCES[0]];
    FirstNamed(st.pics);
    NothingShown(st, b, lim);
    ShownAtOnce(Start(st, b, lim), b, lim);
  }

  lemma FirstNamed(pics: seq<Pic>)
    requires pics == [TWO_REFERENCES[0]]
    ensures Marked(pics, SecondPicture()) == pics
  {
  }

  function ThriceNamed(): Slice {
    var e := LtEntry(1, true);
    Slice(2, 2, 2, true, Rps([e, e, e], [], [], [], [0]), false, false, false, false)
  }

  lemma ThriceNamedSets(pics: seq<Pic>)
    requires pics == TWO_REFERENCES
    ensures Derive(pics, ThriceNamed().rps) == Sets([1, 1, 1], [], [], [], [0])
  {
  }

  lemma ThriceNamedMarks(pics: seq<Pic>)
    requires pics == TWO_REFERENCES
    ensures Mark(pics, ThriceNamed().rps) == [TWO_REFERENCES[0], AsLong(TWO_REFERENCES[1])]
  {
    hide Derive, LongMarked;
    ThriceNamedSets(pics);
    HasEntryMeaning(pics, [1, 1, 1], 3, 1);
    HasEntryMeaning(pics, [0], 1, 0);
    assert [1, 1, 1][0] == 1 && [0][0] == 0;
    ThriceNamedLong(pics);
  }

  lemma ThriceNamedLong(pics: seq<Pic>)
    requires pics == TWO_REFERENCES
    ensures LongMarked(pics, ThriceNamed().rps) == [pics[0], AsLong(pics[1])]
  {
    hide Derive;
    var r := ThriceNamed().rps;
    ThriceNamedSets(pics);
    assert LongSet(pics, r.ltCurr) == Derive(pics, r).ltCurr && LongSet(pics, r.ltFoll) == Derive(pics, r).ltFoll;
    assert [1, 1, 1][0] == 1;
  }

  lemma ThriceNamedLeavesBoth(st: State, lim: Limits)
    requires st.pics == TWO_REFERENCES
    ensures Start(st, ThriceNamed(), lim).pics == [TWO_REFERENCES[0], AsLong(TWO_REFERENCES[1])]
    ensures Derive(Unmarked(st.pics, ThriceNamed()), ThriceNamed().rps) == Sets([1, 1, 1], [], [], [], [0])
  {
    hide Mark, Derive;
    ThriceNamedMarks(st.pics);
    ThriceNamedSets(st.pics);
    StartBumps(st, ThriceNamed(), lim);
    BothInUse(Mark(st.pics, ThriceNamed().rps));
  }

  lemma BothInUse(pics: seq<Pic>)
    requires |pics| == 2 && pics[0].ref && pics[1].ref
    ensures DeleteUnused(pics) == pics && Count(pics, Referenced) == 2
  {
    CountAll(pics, Referenced, 2);
    FilterAll(pics, 2, InUse);
  }

  lemma TwoDiffer()
    ensures DistinctPocs([TWO_REFERENCES[0], AsLong(TWO_REFERENCES[1])])
  {
  }

  lemma ThreeTimes(a: array<Picture?>, p: Picture)
    requires a.Length >= 3 && a[0] == a[1] == a[2] == p
    ensures NonNull(a[..3]) == [p, p, p]
  {
    NonNullNext(a[..3], 0);
    NonNullNext(a[..3], 1);
    NonNullNext(a[..3], 2);
  }
}
