/** Reference picture sets (section 8.3.2 of H.265): which stored pictures a slice names, and how
    naming marks the buffer. A set is a list of buffer positions, -1 where no picture was found. */
module H265Marking {
  import opened Seqs
  import opened H265DpbSpec

  /** Room of each of the five set arrays. */
  const MAX_REF_PICS := 16

  /** A long-term entry gives the full order count or, without the msb, only its low bits. */
  datatype LtEntry = LtEntry(poc: int, msbPresent: bool)

  datatype Rps = Rps(ltCurr: seq<LtEntry>, ltFoll: seq<LtEntry>,
                     stBefore: seq<int>, stAfter: seq<int>, stFoll: seq<int>)

  datatype Sets = Sets(ltCurr: seq<int>, ltFoll: seq<int>, stBefore: seq<int>, stAfter: seq<int>, stFoll: seq<int>)

  function Size(r: Rps): nat {
    |r.ltCurr| + |r.ltFoll| + |r.stBefore| + |r.stAfter| + |r.stFoll|
  }

  function FindLong(pics: seq<Pic>, e: LtEntry): (i: int)
    ensures -1 <= i < |pics|
    ensures i >= 0 ==> pics[i].ref
  {
    if e.msbPresent then Find(pics, RefWithPoc(e.poc)) else Find(pics, RefWithLsb(e.poc))
  }

  function LongSet(pics: seq<Pic>, es: seq<LtEntry>): (s: seq<int>)
    ensures |s| == |es|
    ensures forall k {:trigger s[k]} :: 0 <= k < |s| ==> s[k] == FindLong(pics, es[k])
  {
    seq(|es|, k requires 0 <= k < |es| => FindLong(pics, es[k]))
  }

  function ShortSet(pics: seq<Pic>, pocs: seq<int>): (s: seq<int>)
    ensures |s| == |pocs|
    ensures forall k {:trigger s[k]} :: 0 <= k < |s| ==> s[k] == Find(pics, ShortRefWithPoc(pocs[k]))
  {
    seq(|pocs|, k requires 0 <= k < |pocs| => Find(pics, ShortRefWithPoc(pocs[k])))
  }

  function AsLong(p: Pic): Pic { p.(ref := true, longTerm := true) }

  function AsUnused(p: Pic): Pic { p.(ref := false, longTerm := false) }

  function MarkLong(pics: seq<Pic>, s: seq<int>): (r: seq<Pic>)
    ensures |r| == |pics|
    ensures forall i {:trigger r[i]} :: 0 <= i < |r| ==> r[i] == if i in s then AsLong(pics[i]) else pics[i]
  {
    seq(|pics|, i requires 0 <= i < |pics| => if i in s then AsLong(pics[i]) else pics[i])
  }

  /** The membership test of the program: it compares order counts, not pictures. */
  predicate HasEntryTo(pics: seq<Pic>, s: seq<int>, n: nat, poc: int)
    requires n <= |s|
  {
    n != 0 && (HasEntryTo(pics, s, n - 1, poc) || (0 <= s[n - 1] < |pics| && pics[s[n - 1]].poc == poc))
  }

  predicate HasEntry(pics: seq<Pic>, s: seq<int>, poc: int) {
    HasEntryTo(pics, s, |s|, poc)
  }

  lemma {:induction false} HasEntryMeaning(pics: seq<Pic>, s: seq<int>, n: nat, poc: int)
    requires n <= |s|
    ensures HasEntryTo(pics, s, n, poc) <==> exists k :: 0 <= k < n && 0 <= s[k] < |pics| && pics[s[k]].poc == poc
  {
    if n > 0 {
      HasEntryMeaning(pics, s, n - 1, poc);
    }
  }

  predicate InSets(pics: seq<Pic>, s: Sets, poc: int) {
    || HasEntry(pics, s.ltCurr, poc)
    || HasEntry(pics, s.ltFoll, poc)
    || HasEntry(pics, s.stAfter, poc)
    || HasEntry(pics, s.stBefore, poc)
    || HasEntry(pics, s.stFoll, poc)
  }

  function LongMarked(pics: seq<Pic>, r: Rps): (m: seq<Pic>)
    ensures |m| == |pics|
  {
    MarkLong(pics, LongSet(pics, r.ltCurr) + LongSet(pics, r.ltFoll))
  }

  /** The five sets; the short-term lookups see the long-term marks. */
  function Derive(pics: seq<Pic>, r: Rps): Sets {
    var m := LongMarked(pics, r);
    Sets(LongSet(pics, r.ltCurr), LongSet(pics, r.ltFoll),
         ShortSet(m, r.stBefore), ShortSet(m, r.stAfter), ShortSet(m, r.stFoll))
  }

  /** The buffer after the marking process. */
  function Mark(pics: seq<Pic>, r: Rps): (m: seq<Pic>)
    ensures |m| == |pics|
    ensures forall i {:trigger m[i]} :: 0 <= i < |m| ==>
              m[i] == if InSets(pics, Derive(pics, r), pics[i].poc) then LongMarked(pics, r)[i]
                      else AsUnused(LongMarked(pics, r)[i])
  {
    seq(|pics|, i requires 0 <= i < |pics| =>
      if InSets(pics, Derive(pics, r), pics[i].poc) then LongMarked(pics, r)[i]
      else AsUnused(LongMarked(pics, r)[i]))
  }

  predicate PocsDiffer(a: Pic, b: Pic) { a.poc != b.poc }

  /** Marking in two rounds is marking once. */
  lemma MarkLongTwice(pics: seq<Pic>, a: seq<int>, b: seq<int>)
    ensures MarkLong(MarkLong(pics, a), b) == MarkLong(pics, a + b)
  {
  }

  lemma LongMarkedKeepsPocs(pics: seq<Pic>, r: Rps)
    ensures forall i :: 0 <= i < |pics| ==> LongMarked(pics, r)[i].poc == pics[i].poc
  {
  }

  /** The membership test sees order counts only. */
  lemma InSetsSamePocs(a: seq<Pic>, b: seq<Pic>, s: Sets, poc: int)
    requires |a| == |b| && forall i :: 0 <= i < |a| ==> a[i].poc == b[i].poc
    ensures InSets(a, s, poc) == InSets(b, s, poc)
  {
    HasEntrySamePocs(a, b, s.ltCurr, |s.ltCurr|, poc);
    HasEntrySamePocs(a, b, s.ltFoll, |s.ltFoll|, poc);
    HasEntrySamePocs(a, b, s.stBefore, |s.stBefore|, poc);
    HasEntrySamePocs(a, b, s.stAfter, |s.stAfter|, poc);
    HasEntrySamePocs(a, b, s.stFoll, |s.stFoll|, poc);
  }

  lemma {:induction false} HasEntrySamePocs(a: seq<Pic>, b: seq<Pic>, s: seq<int>, n: nat, poc: int)
    requires n <= |s| && |a| == |b| && forall i :: 0 <= i < |a| ==> a[i].poc == b[i].poc
    ensures HasEntryTo(a, s, n, poc) == HasEntryTo(b, s, n, poc)
  {
    if n > 0 {
      HasEntrySamePocs(a, b, s, n - 1, poc);
    }
  }

  ghost predicate DistinctPocs(pics: seq<Pic>) { Pairwise(pics, PocsDiffer) }

  function AllEntries(s: Sets): seq<int> {
    s.ltCurr + s.ltFoll + s.stBefore + s.stAfter + s.stFoll
  }

  /** How far a picture has gone on its one-way road: short-term, long-term, unused. */
  function Rank(p: Pic): nat {
    if !p.ref then 2 else if p.longTerm then 1 else 0
  }

  lemma SetsNameReferences(pics: seq<Pic>, r: Rps)
    ensures forall i :: i in AllEntries(Derive(pics, r)) && i >= 0 ==> i < |pics| && pics[i].ref
  {
  }

  /** Without any assumption: a picture stays a reference exactly when it was one and shares its order count
      with a named picture. */
  lemma MarkKeepsNamedPocs(pics: seq<Pic>, r: Rps, i: nat)
    requires i < |pics|
    ensures Mark(pics, r)[i].ref <==> pics[i].ref && InSets(pics, Derive(pics, r), pics[i].poc)
    ensures Mark(pics, r)[i] == pics[i].(ref := Mark(pics, r)[i].ref, longTerm := Mark(pics, r)[i].longTerm)
  {
    SetsNameReferences(pics, r);
    var s := Derive(pics, r);
    if i in s.ltCurr + s.ltFoll {
      assert i in AllEntries(s);
    }
  }

  /** With distinct order counts the picture itself is named: the marking is exact. */
  lemma MarkIsExact(pics: seq<Pic>, r: Rps, i: nat)
    requires i < |pics| && DistinctPocs(pics)
    ensures Mark(pics, r)[i].ref <==> i in AllEntries(Derive(pics, r))
  {
    MarkKeepsNamedPocs(pics, r, i);
    SetsNameReferences(pics, r);
    NamedByPoc(pics, Derive(pics, r), i);
  }

  /** And what is no longer a reference is not long-term either. */
  lemma UnusedIsNotLong(pics: seq<Pic>, r: Rps, i: nat)
    requires i < |pics| && DistinctPocs(pics)
    ensures !Mark(pics, r)[i].ref ==> !Mark(pics, r)[i].longTerm
  {
    hide InSets, DistinctPocs;
    MarkIsExact(pics, r, i);
    NamedByPoc(pics, Derive(pics, r), i);
  }

  lemma NamedByPoc(pics: seq<Pic>, s: Sets, i: nat)
    requires i < |pics| && DistinctPocs(pics)
    ensures InSets(pics, s, pics[i].poc) <==> i in AllEntries(s)
  {
    HasEntryIsMembership(pics, s.ltCurr, i);
    HasEntryIsMembership(pics, s.ltFoll, i);
    HasEntryIsMembership(pics, s.stBefore, i);
    HasEntryIsMembership(pics, s.stAfter, i);
    HasEntryIsMembership(pics, s.stFoll, i);
  }

  lemma HasEntryIsMembership(pics: seq<Pic>, s: seq<int>, i: nat)
    requires i < |pics| && DistinctPocs(pics)
    ensures HasEntry(pics, s, pics[i].poc) <==> i in s
  {
    HasEntryMeaning(pics, s, |s|, pics[i].poc);
    forall k | 0 <= k < |s| && 0 <= s[k] < |pics| && pics[s[k]].poc == pics[i].poc
      ensures s[k] == i
    {
      assert if s[k] < i then !PocsDiffer(pics[s[k]], pics[i]) else !PocsDiffer(pics[i], pics[s[k]]);
    }
  }

  /** No picture is in a long-term and a short-term set, and each set holds what its name says. */
  lemma SetsMatchMarks(pics: seq<Pic>, r: Rps, i: nat)
    requires i < |pics|
    ensures var s := Derive(pics, r);
            var long, short := i in s.ltCurr || i in s.ltFoll, i in s.stBefore || i in s.stAfter || i in s.stFoll;
            && !(long && short)
            && (long ==> Mark(pics, r)[i].ref && Mark(pics, r)[i].longTerm)
            && (short ==> Mark(pics, r)[i].ref && !Mark(pics, r)[i].longTerm)
  {
    var s := Derive(pics, r);
    var m := LongMarked(pics, r);
    if i in AllEntries(s) {
      MemberHasEntry(pics, s.ltCurr, i);
      MemberHasEntry(pics, s.ltFoll, i);
      MemberHasEntry(pics, s.stBefore, i);
      MemberHasEntry(pics, s.stAfter, i);
      MemberHasEntry(pics, s.stFoll, i);
      MarkKeepsNamedPocs(pics, r, i);
      SetsNameReferences(pics, r);
    }
    if i in s.stBefore || i in s.stAfter || i in s.stFoll {
      assert m[i].ref && !m[i].longTerm;
    }
  }

  lemma MemberHasEntry(pics: seq<Pic>, s: seq<int>, i: nat)
    requires i < |pics|
    ensures i in s ==> HasEntry(pics, s, pics[i].poc)
  {
    HasEntryMeaning(pics, s, |s|, pics[i].poc);
  }

  /** Marking never moves a picture back. */
  lemma MarkIsOneWay(pics: seq<Pic>, r: Rps, i: nat)
    requires i < |pics|
    ensures Rank(pics[i]) <= Rank(Mark(pics, r)[i])
  {
    MarkKeepsNamedPocs(pics, r, i);
  }

  /** The slice bounds the references it leaves behind by the number of its entries. */
  lemma MarkBoundsReferences(pics: seq<Pic>, r: Rps)
    requires DistinctPocs(pics)
    ensures Count(Mark(pics, r), Referenced) <= Size(r)
  {
    var m, all := Mark(pics, r), AllEntries(Derive(pics, r));
    forall i | 0 <= i < |m| && Referenced(m[i])
      ensures i in all
    {
      MarkIsExact(pics, r, i);
    }
    CountByIndices(m, Referenced, |m|, all);
  }

  /** Two long-term entries cannot name one picture. */
  predicate EntriesDiffer(e: LtEntry, f: LtEntry, max: nat)
    requires max > 0
  {
    if e.msbPresent == f.msbPresent then e.poc != f.poc
    else if e.msbPresent then e.poc % max != f.poc
    else e.poc != f.poc % max
  }

  /** The slice header names no current reference twice in one set. */
  ghost predicate NamesOnce(r: Rps, max: nat)
    requires max > 0
  {
    && Injective(r.stBefore) && Injective(r.stAfter)
    && forall i, j :: 0 <= i < j < |r.ltCurr| ==> EntriesDiffer(r.ltCurr[i], r.ltCurr[j], max)
  }

  /** No position occurs twice in a set; -1 may. */
  predicate FoundOnce(s: seq<int>) {
    forall i, j :: 0 <= i < j < |s| && s[i] >= 0 && s[j] >= 0 ==> s[i] != s[j]
  }

  /** A header that names no picture twice finds no picture twice, when every picture keeps its low bits. */
  lemma SetsFoundOnce(pics: seq<Pic>, r: Rps, max: nat)
    requires max > 0 && NamesOnce(r, max)
    requires forall i :: 0 <= i < |pics| ==> pics[i].pocLsb == pics[i].poc % max
    ensures var s := Derive(pics, r); FoundOnce(s.stBefore) && FoundOnce(s.stAfter) && FoundOnce(s.ltCurr)
  {
    var s := Derive(pics, r);
    forall i, j | 0 <= i < j < |s.ltCurr| && s.ltCurr[i] >= 0 && s.ltCurr[j] >= 0
      ensures s.ltCurr[i] != s.ltCurr[j]
    {
      assert EntriesDiffer(r.ltCurr[i], r.ltCurr[j], max);
    }
  }
}
