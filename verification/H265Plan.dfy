/** From an encoder's choice of reference pictures to the arrays of the decoder object. */
module H265Plan {
  import opened Seqs
  import opened H265DpbSpec
  import opened H265Marking
  import opened H265Machine
  import opened H265Run
  import opened H265RefPicSet
  import opened H265Lookup
  import opened H265Decoder

  predicate IsChosen(cs: seq<Choice>, i: int) { exists k :: 0 <= k < |cs| && cs[k].pic == i }

  lemma PickedIsChosen(cs: seq<Choice>, i: int)
    ensures i in Picks(cs, true) || i in Picks(cs, false) <==> IsChosen(cs, i)
  {
    hide Picks;
    PicksMembers(cs, true, i);
    PicksMembers(cs, false, i);
  }

  /** Afterwards the references are exactly the chosen pictures, long-term those chosen for long-term entries. */
  lemma PlanMarks(h: Header, pics: seq<Pic>, plan: Plan, i: nat)
    requires Carries(h, pics, plan) && DistinctPocs(pics) && Each(pics, LowBitsKept(h.maxLsb)) && i < |pics|
    ensures var p, long := Mark(pics, Prepared(h))[i], IsChosen(plan.long, i);
            && (p.ref <==> long || IsChosen(plan.before, i) || IsChosen(plan.after, i))
            && (p.longTerm <==> long)
  {
    hide Mark, Derive, Picks, IsChosen, DistinctPocs, Each, Prepared;
    PlanArrives(h, pics, plan);
    MarkIsExact(pics, Prepared(h), i);
    SetsMatchMarks(pics, Prepared(h), i);
    UnusedIsNotLong(pics, Prepared(h), i);
    PickedIsChosen(plan.long, i);
    PickedIsChosen(plan.before, i);
    PickedIsChosen(plan.after, i);
  }

  lemma PreparedFits(h: Header)
    requires h.Valid()
    ensures Fits(Prepared(h))
  {
    if !h.idr {
      PocsPartition(h.s0, |h.s0|, h.poc);
      PocsPartition(h.s1, |h.s1|, h.poc);
      LtPartition(h, h.NumLt());
    }
  }

  /** The header is prepared, then the picture started: the five arrays hold exactly the pictures that the encoder chose
      from the buffer, each in the array of its kind and flag, in the order chosen, and nothing else. */
  method StartFromHeader(dec: Decoder, sets: PocSets, h: Header, s: Slice, reorder: nat, latency: nat,
                         bufferingMinus1: nat, ghost lim: Limits, ghost plan: Plan)
    requires dec.Valid() && sets.Valid() && !s.UnmarkAll()
    requires lim == Limits(dec.dpb.maxNumPics, reorder, latency, bufferingMinus1)
    requires Carries(h, dec.dpb.pics, plan) && DistinctPocs(dec.dpb.pics)
    requires Each(dec.dpb.pics, LowBitsKept(h.maxLsb))
    modifies dec, dec.dpb, dec.dpb.Repr, dec.ltCurr, dec.ltFoll, dec.stBefore, dec.stAfter, dec.stFoll
    modifies sets, sets.stCurrBefore, sets.stCurrAfter, sets.stFoll, sets.ltCurr, sets.ltFoll
    ensures dec.Valid() && dec.Value() == Start(old(dec.Value()), s.(rps := Prepared(h)), lim)
    ensures Holds(dec.ltCurr, old(dec.dpb.picList), Picks(plan.long, true))
    ensures Holds(dec.ltFoll, old(dec.dpb.picList), Picks(plan.long, false))
    ensures Holds(dec.stBefore, old(dec.dpb.picList), Picks(plan.before, true))
    ensures Holds(dec.stAfter, old(dec.dpb.picList), Picks(plan.after, true))
    ensures Holds(dec.stFoll, old(dec.dpb.picList), Picks(plan.before, false) + Picks(plan.after, false))
  {
    hide Start, Derive, Picks, DistinctPocs, Each, Prepared, Map, Injective, Count;
    PlanArrives(h, dec.dpb.pics, plan);
    PreparedFits(h);
    var r := sets.PrepareRps(h);
    dec.StartPicture(s.(rps := r), reorder, latency, bufferingMinus1, lim);
  }
}
