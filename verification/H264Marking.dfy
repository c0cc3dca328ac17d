/** What reference marking does to a buffer of frames: which frames it touches, how many references the sliding
    window leaves, and which long-term frame indices are in use. */
module H264Marking {
  import opened Seqs
  import opened H264DpbSpec
  import opened H264Machine

  /** Marking changes reference marks and picture numbers, nothing else. */
  predicate SamePicture(a: Pic, b: Pic) {
    && a.id == b.id && a.poc == b.poc && a.frameNum == b.frameNum
    && a.needed == b.needed && a.nonexisting == b.nonexisting
  }

  ghost predicate Alike(a: seq<Pic>, b: seq<Pic>) {
    && |a| == |b|
    && forall i :: 0 <= i < |a| ==> SamePicture(a[i], b[i])
  }

  lemma {:induction false} SlideAlike(pics: seq<Pic>, max: nat)
    ensures Alike(pics, Slide(pics, max).pics)
    decreases Count(pics, IsRef)
  {
    var i := LowestShortTo(pics, |pics|);
    if Count(pics, IsRef) >= max && i >= 0 {
      UnmarkCount(pics, i);
      SlideAlike(pics[i := Unmark(pics[i])], max);
    }
  }

  lemma FreeIdxAlike(pics: seq<Pic>, idx: int)
    ensures Alike(pics, FreeIdx(pics, idx))
  {
  }

  lemma MapAlike(pics: seq<Pic>, f: Pic -> Pic)
    requires forall p :: SamePicture(p, f(p))
    ensures Alike(pics, Map(pics, f))
  {
  }

  lemma UpdateAlike(pics: seq<Pic>, r: seq<Pic>, i: nat, x: Pic)
    requires i < |pics| && Alike(pics, r) && SamePicture(pics[i], x)
    ensures Alike(pics, r[i := x])
  {
  }

  lemma ApplyMmcoAlike(m: Marking, c: Mmco)
    ensures Alike(m.pics, ApplyMmco(m, c).pics)
  {
    hide Alike, FreeIdx, Map;
    UnchangedAlike(m.pics);
    match c.op
    case 1 =>
      var i := Find(m.pics, ShortWithPicNum(m.cur.picNum - (c.differenceOfPicNumsMinus1 + 1)));
      if i >= 0 { UpdateAlike(m.pics, m.pics, i, Unmark(m.pics[i])); }
    case 2 =>
      var i := Find(m.pics, LongWithPicNum(c.longTermPicNum));
      if i >= 0 { UpdateAlike(m.pics, m.pics, i, Unmark(m.pics[i])); }
    case 3 =>
      var i := Find(m.pics, ShortWithPicNum(m.cur.picNum - (c.differenceOfPicNumsMinus1 + 1)));
      if i >= 0 {
        FreeIdxAlike(m.pics, c.longTermFrameIdx);
        UpdateAlike(m.pics, FreeIdx(m.pics, c.longTermFrameIdx), i, MakeLong(c.longTermFrameIdx)(m.pics[i]));
      }
    case 4 => MapAlike(m.pics, UnmarkAbove(c.maxLongTermFrameIdxPlus1 - 1));
    case 5 => MapAlike(m.pics, Unmark);
    case 6 => FreeIdxAlike(m.pics, c.longTermFrameIdx);
    case _ =>
  }

  lemma UnchangedAlike(pics: seq<Pic>)
    ensures Alike(pics, pics)
  {
  }

  lemma {:induction false} ApplyToAlike(m: Marking, ops: seq<Mmco>, n: nat)
    requires n <= |ops|
    ensures Alike(m.pics, ApplyTo(m, ops, n).pics)
  {
    hide ApplyMmco;
    if n > 0 {
      ApplyToAlike(m, ops, n - 1);
      ApplyMmcoAlike(ApplyTo(m, ops, n - 1), ops[n - 1]);
    }
  }

  lemma MarkedStateAlike(st: State, s: Slice, cfg: Config)
    ensures Alike(st.pics, MarkedState(st, s, cfg).pics)
  {
    if s.isRef && !s.idr {
      SlideAlike(st.pics, MaxRefs(cfg));
      var ops := Effective(s.ops);
      ApplyToAlike(Marking(st.pics, NewPic(s), false, st.maxLongTermFrameIdx), ops, |ops|);
    }
  }

  // ---- The sliding window ----------------------------------------------------------------------------

  /** The window takes short-term references only, and exactly as many as it must: it succeeds if and only if the
      long-term references alone stay below the limit. */
  lemma {:induction false} SlideLeaves(pics: seq<Pic>, max: nat)
    ensures var r := Slide(pics, max);
            && Count(r.pics, IsLong) == Count(pics, IsLong)
            && (r.ok <==> Count(pics, IsLong) < max)
            && Count(r.pics, IsRef) == if Count(pics, IsRef) < max then Count(pics, IsRef)
                                       else if r.ok then max - 1 else Count(pics, IsLong)
    decreases Count(pics, IsRef)
  {
    CountMonotone(pics, IsLong, IsRef, |pics|);
    var i := LowestShortTo(pics, |pics|);
    if Count(pics, IsRef) >= max {
      if i >= 0 {
        UnmarkCount(pics, i);
        CountUpdate(pics, i, Unmark(pics[i]), IsLong);
        SlideLeaves(pics[i := Unmark(pics[i])], max);
        ShortIsNotLong(pics, i);
      } else {
        CountSame(pics, IsLong, pics, IsRef, |pics|);
      }
    }
  }

  lemma ShortIsNotLong(pics: seq<Pic>, i: nat)
    requires i < |pics| && IsShort(pics[i])
    ensures Count(pics, IsLong) < Count(pics, IsRef)
  {
    var r := pics[i := Unmark(pics[i])];
    UnmarkCount(pics, i);
    CountUpdate(pics, i, Unmark(pics[i]), IsLong);
    CountMonotone(r, IsLong, IsRef, |r|);
  }
}
