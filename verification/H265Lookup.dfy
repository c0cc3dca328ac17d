/** Which stored pictures a slice header names (section 8.3.2 of H.265): the five lookups by what they should find, and
    the way from an encoder's choice of pictures through the header to the decoder's sets and marks. */
module H265Lookup {
  import opened Seqs
  import opened H265DpbSpec
  import opened H265Marking
  import opened H265Run
  import opened H265RefPicSet

  // ---- What an entry names --------------------------------------------------------------------------------------

  /** The reference that a long-term entry means: by its order count, or by the low bits of it. */
  predicate Meant(p: Pic, e: LtEntry, max: nat)
    requires max > 0
  {
    p.ref && if e.msbPresent then p.poc == e.poc else p.poc % max == e.poc
  }

  ghost predicate MeansOne(pics: seq<Pic>, e: LtEntry, max: nat)
    requires max > 0
  {
    forall i, j :: 0 <= i < |pics| && 0 <= j < |pics| && Meant(pics[i], e, max) && Meant(pics[j], e, max) ==> i == j
  }

  lemma PocTells(pics: seq<Pic>, i: nat, j: nat)
    requires i < |pics| && j < |pics| && DistinctPocs(pics)
    ensures pics[i].poc == pics[j].poc ==> i == j
  {
    assert i < j ==> PocsDiffer(pics[i], pics[j]);
    assert j < i ==> PocsDiffer(pics[j], pics[i]);
  }

  /** A full order count means one picture when order counts are distinct. */
  lemma FullMeansOne(pics: seq<Pic>, e: LtEntry, max: nat)
    requires max > 0 && e.msbPresent && DistinctPocs(pics)
    ensures MeansOne(pics, e, max)
  {
    forall i, j | 0 <= i < |pics| && 0 <= j < |pics| && Meant(pics[i], e, max) && Meant(pics[j], e, max)
      ensures i == j
    {
      PocTells(pics, i, j);
    }
  }

  /** Entries without msb are sent only where the low bits tell the references apart. */
  ghost predicate Tellable(pics: seq<Pic>, es: seq<LtEntry>, max: nat)
    requires max > 0
  {
    forall k {:trigger es[k]} :: 0 <= k < |es| && !es[k].msbPresent ==> MeansOne(pics, es[k], max)
  }

  lemma FindsMeant(pics: seq<Pic>, e: LtEntry, max: nat, i: nat)
    requires max > 0 && i < |pics| && Each(pics, LowBitsKept(max)) && MeansOne(pics, e, max)
    ensures FindLong(pics, e) == i <==> Meant(pics[i], e, max)
  {
    var x := FindLong(pics, e);
    assert LowBitsKept(max)(pics[i]) && (x >= 0 ==> LowBitsKept(max)(pics[x]));
    assert x < 0 && e.msbPresent ==> !RefWithPoc(e.poc)(pics[i]);
    assert x < 0 && !e.msbPresent ==> !RefWithLsb(e.poc)(pics[i]);
    assert x >= 0 ==> Meant(pics[x], e, max);
  }

  /** One long-term set: the k-th place holds the picture that the k-th entry means, if there is one; so a picture is in
      the set if and only if some entry means it. */
  lemma LongSetIsExact(pics: seq<Pic>, es: seq<LtEntry>, max: nat)
    requires max > 0 && DistinctPocs(pics) && Each(pics, LowBitsKept(max)) && Tellable(pics, es, max)
    ensures var s := LongSet(pics, es);
            && (forall k, i {:trigger Meant(pics[i], es[k], max)} :: 0 <= k < |es| && 0 <= i < |pics| ==>
                  (s[k] == i <==> Meant(pics[i], es[k], max)))
            && (forall i :: 0 <= i < |pics| ==> (i in s <==> exists k :: 0 <= k < |es| && Meant(pics[i], es[k], max)))
  {
    hide FindLong, DistinctPocs, Each;
    forall k, i {:trigger Meant(pics[i], es[k], max)} | 0 <= k < |es| && 0 <= i < |pics|
      ensures LongSet(pics, es)[k] == i <==> Meant(pics[i], es[k], max)
    {
      if es[k].msbPresent {
        FullMeansOne(pics, es[k], max);
      }
      FindsMeant(pics, es[k], max, i);
    }
  }

  /** The short-term references with this order count that long-term marking leaves. */
  predicate MeantShort(pics: seq<Pic>, i: nat, taken: seq<int>, poc: int)
    requires i < |pics|
  {
    pics[i].ref && !pics[i].longTerm && i !in taken && pics[i].poc == poc
  }

  lemma FindsShort(pics: seq<Pic>, taken: seq<int>, poc: int, i: nat)
    requires i < |pics| && DistinctPocs(pics)
    ensures Find(MarkLong(pics, taken), ShortRefWithPoc(poc)) == i <==> MeantShort(pics, i, taken, poc)
  {
    var m := MarkLong(pics, taken);
    var x := Find(m, ShortRefWithPoc(poc));
    assert ShortRefWithPoc(poc)(m[i]) <==> MeantShort(pics, i, taken, poc);
    if x >= 0 {
      PocTells(pics, x, i);
    }
  }

  lemma ShortSetIsExact(pics: seq<Pic>, taken: seq<int>, pocs: seq<int>)
    requires DistinctPocs(pics)
    ensures var s := ShortSet(MarkLong(pics, taken), pocs);
            && (forall k, i {:trigger MeantShort(pics, i, taken, pocs[k])} :: 0 <= k < |pocs| && 0 <= i < |pics| ==>
                  (s[k] == i <==> MeantShort(pics, i, taken, pocs[k])))
            && (forall i :: 0 <= i < |pics| ==>
                  (i in s <==> exists k :: 0 <= k < |pocs| && MeantShort(pics, i, taken, pocs[k])))
  {
    hide Find, DistinctPocs;
    forall k, i {:trigger MeantShort(pics, i, taken, pocs[k])} | 0 <= k < |pocs| && 0 <= i < |pics|
      ensures ShortSet(MarkLong(pics, taken), pocs)[k] == i <==> MeantShort(pics, i, taken, pocs[k])
    {
      FindsShort(pics, taken, pocs[k], i);
    }
  }

  /** All five sets of a slice by membership, for buffers with distinct order counts and their low bits kept. */
  lemma LookupIsExact(pics: seq<Pic>, r: Rps, max: nat, i: nat)
    requires i < |pics| && max > 0 && DistinctPocs(pics) && Each(pics, LowBitsKept(max))
    requires Tellable(pics, r.ltCurr, max) && Tellable(pics, r.ltFoll, max)
    ensures var s := Derive(pics, r);
            var short := pics[i].ref && !pics[i].longTerm && i !in s.ltCurr && i !in s.ltFoll;
            && (i in s.ltCurr <==> exists k :: 0 <= k < |r.ltCurr| && Meant(pics[i], r.ltCurr[k], max))
            && (i in s.ltFoll <==> exists k :: 0 <= k < |r.ltFoll| && Meant(pics[i], r.ltFoll[k], max))
            && (i in s.stBefore <==> short && pics[i].poc in r.stBefore)
            && (i in s.stAfter <==> short && pics[i].poc in r.stAfter)
            && (i in s.stFoll <==> short && pics[i].poc in r.stFoll)
  {
    hide MarkLong, LongSet, ShortSet, DistinctPocs, Each, Tellable;
    var s := Derive(pics, r);
    var taken := s.ltCurr + s.ltFoll;
    LongSetIsExact(pics, r.ltCurr, max);
    LongSetIsExact(pics, r.ltFoll, max);
    ShortSetIsExact(pics, taken, r.stBefore);
    ShortSetIsExact(pics, taken, r.stAfter);
    ShortSetIsExact(pics, taken, r.stFoll);
  }

  // ---- From the header to the entries ----------------------------------------------------------------------------

  /** The numbers below n that p picks, in order. */
  function Chosen(n: nat, p: nat -> bool): (c: seq<nat>)
    ensures forall i :: 0 <= i < |c| ==> c[i] < n && p(c[i])
  {
    if n == 0 then []
    else
      var c := Chosen(n - 1, p);
      if p(n - 1) then c + [n - 1] else c
  }

  /** All of them, each once. */
  lemma {:induction false} ChosenIsExact(n: nat, p: nat -> bool, x: nat)
    ensures x in Chosen(n, p) <==> x < n && p(x)
    ensures forall i, j :: 0 <= i < j < |Chosen(n, p)| ==> Chosen(n, p)[i] < Chosen(n, p)[j]
  {
    if n > 0 {
      ChosenIsExact(n - 1, p, x);
    }
  }

  function StUsed(es: seq<StEntry>, used: bool): nat -> bool { (k: nat) => k < |es| && es[k].used == used }

  function LtUsed(h: Header, used: bool): nat -> bool
    requires h.Valid()
  {
    (k: nat) => k < h.NumLt() && h.LtAt(k).used == used
  }

  /** The set holds the order counts of the entries that are, or are not, for use by the current picture, all of them
      and in header order. */
  predicate Lists(pocs: seq<int>, es: seq<StEntry>, used: bool, poc: int) {
    var c := Chosen(|es|, StUsed(es, used));
    |pocs| == |c| && forall j :: 0 <= j < |c| ==> pocs[j] == poc + es[c[j]].deltaPoc
  }

  predicate ListsLong(es: seq<LtEntry>, h: Header, used: bool)
    requires h.Valid()
  {
    var c := Chosen(h.NumLt(), LtUsed(h, used));
    |es| == |c| && forall j :: 0 <= j < |c| ==> es[j] == h.EntryAt(c[j])
  }

  lemma {:induction false} PocsAreListed(es: seq<StEntry>, n: nat, used: bool, poc: int)
    requires n <= |es|
    ensures var c, r := Chosen(n, StUsed(es, used)), PocsTo(es, n, used, poc);
            |r| == |c| && forall j :: 0 <= j < |c| ==> r[j] == poc + es[c[j]].deltaPoc
  {
    if n > 0 {
      PocsAreListed(es, n - 1, used, poc);
    }
  }

  lemma {:induction false} LongsAreListed(h: Header, n: nat, used: bool)
    requires h.Valid() && n <= h.NumLt()
    ensures var c, r := Chosen(n, LtUsed(h, used)), h.LtTo(n, used);
            |r| == |c| && forall j :: 0 <= j < |c| ==> r[j] == h.EntryAt(c[j])
  {
    hide H265RefPicSet.Header.EntryAt, H265RefPicSet.Header.CycleAt;
    if n > 0 {
      LongsAreListed(h, n - 1, used);
    }
  }

  /** Every entry of the header lands in the set of its kind and its flag, in header order, and nothing else does. The
      entries before the current picture lead those after it in the set of those that are kept for later. */
  lemma PreparedIsExact(h: Header)
    requires h.Valid() && !h.idr
    ensures var r, n := Prepared(h), |Chosen(|h.s0|, StUsed(h.s0, false))|;
            && ListsLong(r.ltCurr, h, true) && ListsLong(r.ltFoll, h, false)
            && Lists(r.stBefore, h.s0, true, h.poc) && Lists(r.stAfter, h.s1, true, h.poc)
            && n <= |r.stFoll|
            && Lists(r.stFoll[..n], h.s0, false, h.poc) && Lists(r.stFoll[n..], h.s1, false, h.poc)
  {
    hide Chosen;
    LongsAreListed(h, h.NumLt(), true);
    LongsAreListed(h, h.NumLt(), false);
    PocsAreListed(h.s0, |h.s0|, true, h.poc);
    PocsAreListed(h.s1, |h.s1|, true, h.poc);
    PocsAreListed(h.s0, |h.s0|, false, h.poc);
    PocsAreListed(h.s1, |h.s1|, false, h.poc);
    var n := |Chosen(|h.s0|, StUsed(h.s0, false))|;
    assert Prepared(h).stFoll[..n] == Pocs(h.s0, false, h.poc) && Prepared(h).stFoll[n..] == Pocs(h.s1, false, h.poc);
  }

  // ---- From chosen pictures to the sets --------------------------------------------------------------------------

  /** A stored picture that an encoder puts into the reference picture set: its place in the buffer, whether the current
      picture uses it, and, for a long-term entry, whether the msb is sent. */
  datatype Choice = Choice(pic: nat, used: bool, msb: bool)

  /** The short-term entries before and after the current picture, and the long-term ones. */
  datatype Plan = Plan(before: seq<Choice>, after: seq<Choice>, long: seq<Choice>)

  function ChoiceUsed(cs: seq<Choice>, used: bool): nat -> bool { (k: nat) => k < |cs| && cs[k].used == used }

  /** The pictures chosen with, or without, the flag, in the order chosen. */
  function Picks(cs: seq<Choice>, used: bool): (r: seq<int>)
    ensures |r| == |Chosen(|cs|, ChoiceUsed(cs, used))|
    ensures forall j {:trigger r[j]} :: 0 <= j < |r| ==> r[j] == cs[Chosen(|cs|, ChoiceUsed(cs, used))[j]].pic
  {
    var c := Chosen(|cs|, ChoiceUsed(cs, used));
    seq(|c|, j requires 0 <= j < |c| => cs[c[j]].pic)
  }

  lemma PicksMembers(cs: seq<Choice>, used: bool, i: int)
    ensures i in Picks(cs, used) <==> exists k :: 0 <= k < |cs| && cs[k].used == used && cs[k].pic == i
  {
    var c := Chosen(|cs|, ChoiceUsed(cs, used));
    forall k | 0 <= k < |cs| && cs[k].used == used
      ensures cs[k].pic in Picks(cs, used)
    {
      ChosenIsExact(|cs|, ChoiceUsed(cs, used), k);
      var j :| 0 <= j < |c| && c[j] == k;
      assert Picks(cs, used)[j] == cs[k].pic;
    }
  }

  /** No other reference has the low bits of this one. */
  ghost predicate AloneInLsb(pics: seq<Pic>, i: nat, max: nat)
    requires i < |pics| && max > 0
  {
    forall j :: 0 <= j < |pics| && pics[j].ref && pics[j].poc % max == pics[i].poc % max ==> j == i
  }

  predicate ShortChoices(pics: seq<Pic>, cs: seq<Choice>) {
    forall k :: 0 <= k < |cs| ==> cs[k].pic < |pics| && pics[cs[k].pic].ref && !pics[cs[k].pic].longTerm
  }

  ghost predicate LongChoices(pics: seq<Pic>, cs: seq<Choice>, max: nat)
    requires max > 0
  {
    forall k :: 0 <= k < |cs| ==>
      cs[k].pic < |pics| && pics[cs[k].pic].ref && (cs[k].msb || AloneInLsb(pics, cs[k].pic, max))
  }

  predicate Apart(a: seq<Choice>, b: seq<Choice>) {
    forall k, l :: 0 <= k < |a| && 0 <= l < |b| ==> a[k].pic != b[l].pic
  }

  /** Short-term references for the short-term entries, references for the long-term ones, no picture for both; the msb
      is left out only where the low bits tell the picture apart. */
  ghost predicate Sensible(pics: seq<Pic>, plan: Plan, max: nat)
    requires max > 0
  {
    && ShortChoices(pics, plan.before) && ShortChoices(pics, plan.after) && LongChoices(pics, plan.long, max)
    && Apart(plan.before, plan.long) && Apart(plan.after, plan.long)
  }

  /** The short-term entries are the distances from the current picture. */
  predicate CarriesShort(es: seq<StEntry>, pics: seq<Pic>, cs: seq<Choice>, poc: int)
    requires ShortChoices(pics, cs)
  {
    |es| == |cs| && forall k :: 0 <= k < |es| ==> es[k] == StEntry(pics[cs[k].pic].poc - poc, cs[k].used)
  }

  function PocsOf(pics: seq<Pic>, cs: seq<Choice>): (r: seq<int>)
    requires forall k :: 0 <= k < |cs| ==> cs[k].pic < |pics|
    ensures |r| == |cs| && forall k {:trigger r[k]} :: 0 <= k < |r| ==> r[k] == pics[cs[k].pic].poc
  {
    seq(|cs|, k requires 0 <= k < |cs| => pics[cs[k].pic].poc)
  }

  /** The header that an encoder sends for the plan: differences of order counts, low bits and differential cycles. */
  ghost predicate Carries(h: Header, pics: seq<Pic>, plan: Plan) {
    && h.Valid() && !h.idr && h.pocLsb == h.poc % h.maxLsb && Sensible(pics, plan, h.maxLsb)
    && CarriesShort(h.s0, pics, plan.before, h.poc) && CarriesShort(h.s1, pics, plan.after, h.poc)
    && h.NumLt() == |plan.long|
    && (forall k :: 0 <= k < h.NumLt() ==>
          h.LtAt(k) == LtRef(pics[plan.long[k].pic].poc % h.maxLsb, plan.long[k].used)
          && h.msbPresent[k] == plan.long[k].msb)
    && h.msbCycle == CyclesFor(PocsOf(pics, plan.long), |h.ltIdxSps|, h.poc, h.maxLsb)
  }

  lemma {:induction false} SameChosen(n: nat, p: nat -> bool, q: nat -> bool)
    requires forall k: nat :: k < n ==> p(k) == q(k)
    ensures Chosen(n, p) == Chosen(n, q)
  {
    if n > 0 {
      SameChosen(n - 1, p, q);
    }
  }

  /** The k-th long-term entry means the picture that was chosen. */
  lemma EntryMeansChoice(h: Header, pics: seq<Pic>, plan: Plan, k: nat)
    requires Carries(h, pics, plan) && k < h.NumLt() && DistinctPocs(pics)
    ensures plan.long[k].pic < |pics| && Meant(pics[plan.long[k].pic], h.EntryAt(k), h.maxLsb)
    ensures MeansOne(pics, h.EntryAt(k), h.maxLsb)
  {
    hide H265RefPicSet.Header.CycleAt, DistinctPocs;
    LongTermRoundTrip(h, PocsOf(pics, plan.long), k);
    var e := h.EntryAt(k);
    if e.msbPresent {
      FullMeansOne(pics, e, h.maxLsb);
    } else {
      assert AloneInLsb(pics, plan.long[k].pic, h.maxLsb);
    }
  }

  lemma LongArrives(h: Header, pics: seq<Pic>, plan: Plan, used: bool)
    requires Carries(h, pics, plan) && DistinctPocs(pics) && Each(pics, LowBitsKept(h.maxLsb))
    ensures LongSet(pics, h.LtTo(h.NumLt(), used)) == Picks(plan.long, used)
  {
    hide H265RefPicSet.Header.EntryAt, H265RefPicSet.Header.CycleAt, H265RefPicSet.Header.LtTo, Chosen;
    hide DistinctPocs, Each, Meant, MeansOne, FindLong;
    var n, es := h.NumLt(), h.LtTo(h.NumLt(), used);
    var c := Chosen(n, LtUsed(h, used));
    LongsAreListed(h, n, used);
    SameChosen(n, LtUsed(h, used), ChoiceUsed(plan.long, used));
    forall j | 0 <= j < |es|
      ensures LongSet(pics, es)[j] == Picks(plan.long, used)[j]
    {
      EntryMeansChoice(h, pics, plan, c[j]);
      FindsMeant(pics, es[j], h.maxLsb, plan.long[c[j]].pic);
    }
  }

  lemma ShortArrives(es: seq<StEntry>, pics: seq<Pic>, cs: seq<Choice>, poc: int, used: bool, taken: seq<int>)
    requires ShortChoices(pics, cs) && CarriesShort(es, pics, cs, poc) && DistinctPocs(pics)
    requires forall k :: 0 <= k < |cs| ==> cs[k].pic !in taken
    ensures ShortSet(MarkLong(pics, taken), Pocs(es, used, poc)) == Picks(cs, used)
  {
    hide Chosen, DistinctPocs, Find, MarkLong, PocsTo;
    var pocs := Pocs(es, used, poc);
    var c := Chosen(|es|, StUsed(es, used));
    PocsAreListed(es, |es|, used, poc);
    SameChosen(|es|, StUsed(es, used), ChoiceUsed(cs, used));
    forall j | 0 <= j < |pocs|
      ensures ShortSet(MarkLong(pics, taken), pocs)[j] == Picks(cs, used)[j]
    {
      FindsShort(pics, taken, pocs[j], cs[c[j]].pic);
    }
  }

  lemma ShortSetConcat(pics: seq<Pic>, a: seq<int>, b: seq<int>)
    ensures ShortSet(pics, a + b) == ShortSet(pics, a) + ShortSet(pics, b)
  {
    hide Find;
  }

  /** What an encoder chooses arrives: the five sets hold exactly the chosen pictures, each in the set of its kind and
      flag, in the order chosen. */
  lemma PlanArrives(h: Header, pics: seq<Pic>, plan: Plan)
    requires Carries(h, pics, plan) && DistinctPocs(pics) && Each(pics, LowBitsKept(h.maxLsb))
    ensures Derive(pics, Prepared(h))
         == Sets(Picks(plan.long, true), Picks(plan.long, false), Picks(plan.before, true), Picks(plan.after, true),
                 Picks(plan.before, false) + Picks(plan.after, false))
  {
    hide H265RefPicSet.Header.EntryAt, H265RefPicSet.Header.CycleAt, H265RefPicSet.Header.LtTo;
    hide DistinctPocs, Each, LongSet, ShortSet, MarkLong, Picks;
    var taken := Picks(plan.long, true) + Picks(plan.long, false);
    LongArrives(h, pics, plan, true);
    LongArrives(h, pics, plan, false);
    forall i
      ensures i in taken ==> exists k :: 0 <= k < |plan.long| && plan.long[k].pic == i
    {
      PicksMembers(plan.long, true, i);
      PicksMembers(plan.long, false, i);
    }
    ShortArrives(h.s0, pics, plan.before, h.poc, true, taken);
    ShortArrives(h.s0, pics, plan.before, h.poc, false, taken);
    ShortArrives(h.s1, pics, plan.after, h.poc, true, taken);
    ShortArrives(h.s1, pics, plan.after, h.poc, false, taken);
    ShortSetConcat(MarkLong(pics, taken), Pocs(h.s0, false, h.poc), Pocs(h.s1, false, h.poc));
  }
}
