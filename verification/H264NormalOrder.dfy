/** The normal latency mode outputs in order: a buffer with room for the reference frames and num_reorder_frames more
    lets no frame leave too early, whatever the stream marks, gaps and direct output included. */
module H264NormalOrder {
  import opened Seqs
  import opened H264DpbSpec
  import opened H264Machine
  import opened H264Marking
  import opened H264Keep
  import opened H264Run
  import opened H264Capacity
  import opened H264Reorder
  import opened H264Order

  /** Frames leave when the buffer is full, and it holds as many as may be reordered beside the references. */
  predicate RoomToReorder(cfg: Config) {
    && cfg.mode == NormalLatency
    && cfg.limits.maxNumFrames >= MaxRefs(cfg) + cfg.limits.maxNumReorderFrames
  }

  // ---- References ---------------------------------------------------------------------------------------

  lemma GapStepRefs(st: State, n: int, poc: int, cfg: Config)
    requires Count(st.pics, IsRef) <= MaxRefs(cfg)
    ensures Count(GapStep(st, n, poc, cfg).st.pics, IsRef) <= MaxRefs(cfg)
  {
    hide BumpWhile, Slide, Filter, Count;
    var renumbered, frame := Map(st.pics, Renumber(n, cfg.maxFrameNum)), GapFrame(n, poc);
    RenumberCounts(st.pics, n, cfg.maxFrameNum);
    SlideLeaves(renumbered, MaxRefs(cfg));
    LongsAreReferences(renumbered);
    var slid := Slide(renumbered, MaxRefs(cfg));
    var cleaned := st.(pics := DeleteUnused(slid.pics));
    DeleteUnusedShape(slid.pics);
    BumpWhileShape(cleaned, Some(frame), NormalLatency, cfg);
    CountAppend(BumpWhile(cleaned, Some(frame), NormalLatency, cfg).pics, Stored(frame), IsRef);
  }

  lemma {:induction false} GapLoopRefs(st: State, n: int, target: int, poc: int, cfg: Config)
    requires 0 <= n < cfg.maxFrameNum && 0 <= target < cfg.maxFrameNum
    requires Count(st.pics, IsRef) <= MaxRefs(cfg)
    ensures Count(GapLoop(st, n, target, poc, cfg).st.pics, IsRef) <= MaxRefs(cfg)
    decreases Ahead(n, target, cfg.maxFrameNum)
  {
    hide GapStep, Count;
    if n != target {
      GapStepRefs(st, n, poc, cfg);
      var g := GapStep(st, n, poc, cfg);
      if g.ok {
        GapLoopRefs(g.st, Next(n, cfg.maxFrameNum), target, poc, cfg);
      }
    }
  }

  lemma StartRefs(st: State, s: Slice, cfg: Config)
    requires ValidNumbers(st, s, cfg) && Count(st.pics, IsRef) <= MaxRefs(cfg)
    ensures Count(Start(st, s, cfg).st.pics, IsRef) <= MaxRefs(cfg)
  {
    hide GapLoop, BumpAll, Count;
    var st0 := if s.idr then st.(prevRefFrameNum := 0) else st;
    if IsGap(st0, s, cfg) {
      GapLoopRefs(st0, Next(st0.prevRefFrameNum, cfg.maxFrameNum), s.frameNum, s.gapPoc, cfg);
    }
    var g := HandleGap(st0, s, cfg);
    if g.ok {
      var flushed := if s.idr then [] else g.st.pics;
      RenumberCounts(flushed, s.frameNum, cfg.maxFrameNum);
      NoneCounted(IsRef);
    }
  }

  lemma MarkedRefs(st: State, s: Slice, cfg: Config)
    requires !s.isRef
    ensures Count(Marked(st, s, cfg).pics, IsRef) == Count(st.pics, IsRef)
  {
    DeleteUnusedShape(st.pics);
  }

  lemma SteppedRefs(t: State, cur: Pic, cfg: Config)
    requires !cur.nonexisting
    ensures Count(Stepped(t, cur, cfg).pics, IsRef) == Count(t.pics, IsRef) + if IsRef(cur) then 1 else 0
  {
    hide BumpWhile, Count;
    var b, r := BumpWhile(t, Some(cur), cfg.mode, cfg), Insert(t, cur, cfg);
    BumpWhileShape(t, Some(cur), cfg.mode, cfg);
    CountAppend(b.pics, Stored(cur), IsRef);
    BumpWhileShape(r, None, cfg.mode, cfg);
  }

  /** A stream whose marking always leaves room for the next reference frame never has more than num_ref_frames. */
  lemma {:induction false} RunRefs(ss: seq<Slice>, cfg: Config)
    requires Numbered(ss, cfg) && !EverMeets(ss, cfg, MaxRefs(cfg))
    ensures Count(Run(ss, cfg).pics, IsRef) <= MaxRefs(cfg)
  {
    hide Start, Marked, CurrentPic, Insert, BumpWhile, Count;
    if ss == [] {
      NoneCounted(IsRef);
    } else {
      var before, s := ss[..|ss| - 1], ss[|ss| - 1];
      RunRefs(before, cfg);
      StartRefs(Run(before, cfg), s, cfg);
      var g := Start(Run(before, cfg), s, cfg);
      if g.ok {
        var cur := CurrentPic(g.st, s, cfg);
        CurrentKeeps(g.st, s, cfg);
        if !s.isRef {
          MarkedRefs(g.st, s, cfg);
        }
        assert Run(ss, cfg) == Stepped(Marked(g.st, s, cfg), cur, cfg);
        SteppedRefs(Marked(g.st, s, cfg), cur, cfg);
      }
    }
  }

  // ---- What leaves a full buffer is covered ---------------------------------------------------------------

  /** What waits is of the sequence b to k - 1. */
  ghost predicate WaitsWithin(pics: seq<Pic>, ss: seq<Slice>, b: nat, k: nat)
    requires b <= k <= |ss|
  {
    forall c :: Count(pics, WaitingAnd(PocFrom(c))) <= Count(ss[b..k], SliceFrom(c))
  }

  /** From place `from` on, everything in the list is covered. */
  ghost predicate CoveredFrom(out: seq<Pic>, from: nat, ss: seq<Slice>, b: nat, k: nat, reorder: nat)
    requires b <= k < |ss|
  {
    forall i :: from <= i < |out| ==> Covered(ss, b, k, out[i].poc, reorder)
  }

  lemma CoveredOn(x: seq<Pic>, y: seq<Pic>, from: nat, ss: seq<Slice>, b: nat, k: nat, reorder: nat)
    requires b <= k < |ss| && x <= y
    requires CoveredFrom(x, from, ss, b, k, reorder) && CoveredFrom(y, |x|, ss, b, k, reorder)
    ensures CoveredFrom(y, from, ss, b, k, reorder)
  {
  }

  /** In a buffer where every frame is in use, what is no reference waits. */
  lemma {:induction false} UsedCount(pics: seq<Pic>, n: nat)
    requires n <= |pics| && Each(pics, InUse)
    ensures n <= CountTo(pics, n, IsRef) + CountTo(pics, n, Waiting)
  {
    if n > 0 {
      UsedCount(pics, n - 1);
      assert InUse(pics[n - 1]);
    }
  }

  /** All that waits lies at or after c, and beside it lies the current frame. */
  lemma WaitingCovers(pics: seq<Pic>, ss: seq<Slice>, b: nat, k: nat, c: int, reorder: nat)
    requires b <= k < |ss| && WaitsWithin(pics, ss, b, k) && WaitingFrom(pics, c)
    requires Count(pics, Waiting) + (if FinalPoc(ss[k]) >= c then 1 else 0) > reorder
    ensures Covered(ss, b, k, c, reorder)
  {
    CountSame(pics, WaitingAnd(PocFrom(c)), pics, Waiting, |pics|);
    assert ss[b..k + 1] == ss[b..k] + [ss[k]];
    CountAppend(ss[b..k], ss[k], SliceFrom(c));
  }

  lemma BumpOnceWithin(st: State, cfg: Config, ss: seq<Slice>, b: nat, k: nat)
    requires Lowest(st.pics) >= 0 && b <= k <= |ss| && WaitsWithin(st.pics, ss, b, k)
    ensures WaitsWithin(BumpOnce(st, false, cfg).pics, ss, b, k)
  {
    hide BumpOnce, Count;
    forall c
      ensures Count(BumpOnce(st, false, cfg).pics, WaitingAnd(PocFrom(c))) <= Count(ss[b..k], SliceFrom(c))
    {
      BumpOnceNoGrowth(st, false, cfg, PocFrom(c));
    }
  }

  /** The reference frame that waits for room, or the non-reference frame k. */
  ghost predicate Asks(cur: Pic, refs: nat, s: Slice, cfg: Config) {
    if cur.refPic then refs < MaxRefs(cfg) else refs <= MaxRefs(cfg) && cur.poc == FinalPoc(s)
  }

  lemma FullCovers(pics: seq<Pic>, cur: Pic, cfg: Config, ss: seq<Slice>, b: nat, k: nat)
    requires RoomToReorder(cfg) && b <= k < |ss| && Each(pics, InUse) && WaitsWithin(pics, ss, b, k)
    requires Asks(cur, Count(pics, IsRef), ss[k], cfg) && !HasEmpty(pics, cfg.limits)
    ensures Lowest(pics) >= 0 && FullRules(pics, Some(cur)) ==>
              Covered(ss, b, k, pics[Lowest(pics)].poc, cfg.limits.maxNumReorderFrames)
    ensures !cur.refPic && WaitingFrom(pics, cur.poc) ==>
              Covered(ss, b, k, cur.poc, cfg.limits.maxNumReorderFrames)
  {
    hide Covered, WaitsWithin, FinalPoc;
    UsedCount(pics, |pics|);
    if Lowest(pics) >= 0 && FullRules(pics, Some(cur)) {
      WaitingCovers(pics, ss, b, k, pics[Lowest(pics)].poc, cfg.limits.maxNumReorderFrames);
    }
    if !cur.refPic && WaitingFrom(pics, cur.poc) {
      WaitingCovers(pics, ss, b, k, cur.poc, cfg.limits.maxNumReorderFrames);
    }
  }

  /** A round of bumping. */
  lemma {:induction false} RoundCovered(st: State, cur: Pic, cfg: Config, ss: seq<Slice>, b: nat, k: nat)
    requires RoomToReorder(cfg) && b <= k < |ss| && Each(st.pics, InUse) && WaitsWithin(st.pics, ss, b, k)
    requires Asks(cur, Count(st.pics, IsRef), ss[k], cfg)
    ensures var r := BumpWhile(st, Some(cur), NormalLatency, cfg);
            && Each(r.pics, InUse) && WaitsWithin(r.pics, ss, b, k) && Count(r.pics, IsRef) == Count(st.pics, IsRef)
            && st.emitted <= r.emitted
            && CoveredFrom(r.emitted, |st.emitted|, ss, b, k, cfg.limits.maxNumReorderFrames)
    decreases Count(st.pics, Waiting)
  {
    hide WaitsWithin, Covered, FullRules, Each, Count, Asks, EarlyRules;
    BumpWhileUnfolds(st, Some(cur), NormalLatency, cfg);
    if NeedsBump(st.pics, cfg.limits, st.lastPoc, st.lastNonRef, Some(cur), NormalLatency) && Lowest(st.pics) >= 0 {
      var t := BumpOnce(st, false, cfg);
      FullCovers(st.pics, cur, cfg, ss, b, k);
      OutputShape(st.pics, Lowest(st.pics));
      BumpOnceWithin(st, cfg, ss, b, k);
      RoundCovered(t, cur, cfg, ss, b, k);
      CoveredOn(t.emitted, BumpWhile(t, Some(cur), NormalLatency, cfg).emitted, |st.emitted|, ss, b, k,
                cfg.limits.maxNumReorderFrames);
    }
  }

  /** The current frame: bumping, then storage or direct output. The extra round of a live stream outputs nothing. */
  lemma SteppedCovered(t: State, cur: Pic, cfg: Config, ss: seq<Slice>, b: nat, k: nat)
    requires RoomToReorder(cfg) && b <= k < |ss| && Each(t.pics, InUse) && WaitsWithin(t.pics, ss, b, k)
    requires Asks(cur, Count(t.pics, IsRef), ss[k], cfg) && cur.refPic == IsRef(cur)
    ensures CoveredFrom(Stepped(t, cur, cfg).emitted, |t.emitted|, ss, b, k, cfg.limits.maxNumReorderFrames)
  {
    hide WaitsWithin, Covered, FullRules, Each, Count, BumpWhile, WaitingFrom, EarlyRules;
    var r, q := cfg.limits.maxNumReorderFrames, BumpWhile(t, Some(cur), cfg.mode, cfg);
    RoundCovered(t, cur, cfg, ss, b, k);
    var i := Insert(t, cur, cfg);
    if cur.ref == Unused && !HasEmpty(q.pics, cfg.limits) {
      NotAfterWaiting(t, cur, cfg);
      FullCovers(q.pics, cur, cfg, ss, b, k);
      assert i.emitted == q.emitted + [cur];
    }
    CoveredOn(q.emitted, i.emitted, |t.emitted|, ss, b, k, r);
    NoLiveRound(i, cfg);
  }

  lemma NoLiveRound(st: State, cfg: Config)
    requires cfg.mode == NormalLatency
    ensures BumpWhile(st, None, cfg.mode, cfg) == st
  {
    BumpWhileUnfolds(st, None, cfg.mode, cfg);
  }

  // ---- Gaps -----------------------------------------------------------------------------------------------

  lemma AlikeWithin(a: seq<Pic>, r: seq<Pic>, ss: seq<Slice>, b: nat, k: nat)
    requires b <= k <= |ss| && WaitsWithin(a, ss, b, k) && Alike(a, r)
    ensures WaitsWithin(r, ss, b, k) && WaitsWithin(DeleteUnused(r), ss, b, k)
  {
    hide Count, Filter, Alike;
    forall c
      ensures Count(r, WaitingAnd(PocFrom(c))) <= Count(ss[b..k], SliceFrom(c))
      ensures Count(DeleteUnused(r), WaitingAnd(PocFrom(c))) <= Count(ss[b..k], SliceFrom(c))
    {
      AlikeCount(a, r, PocFrom(c));
    }
  }

  lemma GapStepCovered(st: State, n: int, poc: int, cfg: Config, ss: seq<Slice>, b: nat, k: nat)
    requires RoomToReorder(cfg) && b <= k < |ss| && WaitsWithin(st.pics, ss, b, k)
    ensures var g := GapStep(st, n, poc, cfg).st;
            && WaitsWithin(g.pics, ss, b, k) && st.emitted <= g.emitted
            && CoveredFrom(g.emitted, |st.emitted|, ss, b, k, cfg.limits.maxNumReorderFrames)
  {
    hide BumpWhile, Slide, Filter, Count, WaitsWithin, Alike, Covered, Each;
    var renumbered, frame := Map(st.pics, Renumber(n, cfg.maxFrameNum)), GapFrame(n, poc);
    var slid := Slide(renumbered, MaxRefs(cfg));
    MapAlike(st.pics, Renumber(n, cfg.maxFrameNum));
    SlideAlike(renumbered, MaxRefs(cfg));
    AlikeWithin(st.pics, renumbered, ss, b, k);
    AlikeWithin(renumbered, slid.pics, ss, b, k);
    SlideLeaves(renumbered, MaxRefs(cfg));
    if slid.ok {
      var cleaned := st.(pics := DeleteUnused(slid.pics));
      DeleteUnusedShape(slid.pics);
      RoundCovered(cleaned, frame, cfg, ss, b, k);
      StoreWithin(BumpWhile(cleaned, Some(frame), NormalLatency, cfg), frame, ss, b, k);
    }
  }

  lemma StoreWithin(st: State, frame: Pic, ss: seq<Slice>, b: nat, k: nat)
    requires b <= k <= |ss| && WaitsWithin(st.pics, ss, b, k) && frame.nonexisting
    ensures WaitsWithin(Store(st, frame).pics, ss, b, k)
  {
    forall c
      ensures Count(Store(st, frame).pics, WaitingAnd(PocFrom(c))) <= Count(ss[b..k], SliceFrom(c))
    {
      CountAppend(st.pics, Stored(frame), WaitingAnd(PocFrom(c)));
    }
  }

  lemma {:induction false} GapLoopCovered(st: State, n: int, target: int, poc: int, cfg: Config, ss: seq<Slice>, b: nat,
                                          k: nat)
    requires 0 <= n < cfg.maxFrameNum && 0 <= target < cfg.maxFrameNum
    requires RoomToReorder(cfg) && b <= k < |ss| && WaitsWithin(st.pics, ss, b, k)
    ensures var g := GapLoop(st, n, target, poc, cfg).st;
            st.emitted <= g.emitted
            && CoveredFrom(g.emitted, |st.emitted|, ss, b, k, cfg.limits.maxNumReorderFrames)
    decreases Ahead(n, target, cfg.maxFrameNum)
  {
    hide GapStep, WaitsWithin, Covered;
    if n != target {
      GapStepCovered(st, n, poc, cfg, ss, b, k);
      var g := GapStep(st, n, poc, cfg);
      if g.ok {
        GapLoopCovered(g.st, Next(n, cfg.maxFrameNum), target, poc, cfg, ss, b, k);
        CoveredOn(g.st.emitted, GapLoop(st, n, target, poc, cfg).st.emitted, |st.emitted|, ss, b, k,
                  cfg.limits.maxNumReorderFrames);
      }
    }
  }

  lemma StartCovered(st: State, s: Slice, cfg: Config, ss: seq<Slice>, b: nat, k: nat)
    requires ValidNumbers(st, s, cfg) && !s.idr
    requires RoomToReorder(cfg) && b <= k < |ss| && WaitsWithin(st.pics, ss, b, k)
    ensures var g := Start(st, s, cfg).st;
            st.emitted <= g.emitted
            && CoveredFrom(g.emitted, |st.emitted|, ss, b, k, cfg.limits.maxNumReorderFrames)
  {
    hide GapLoop, IsGap, WaitsWithin, Covered, Drain, Clear;
    if IsGap(st, s, cfg) {
      GapLoopCovered(st, Next(st.prevRefFrameNum, cfg.maxFrameNum), s.frameNum, s.gapPoc, cfg, ss, b, k);
    }
  }

  // ---- The theorem ------------------------------------------------------------------------------------------

  lemma {:induction false} PrefixMeets(ss: seq<Slice>, k: nat, cfg: Config, limit: nat)
    requires Numbered(ss, cfg) && k <= |ss| && !EverMeets(ss, cfg, limit)
    ensures !EverMeets(ss[..k], cfg, limit)
  {
    if k == |ss| {
      assert ss[..k] == ss;
    } else {
      PrefixMeets(ss[..|ss| - 1], k, cfg, limit);
      assert ss[..|ss| - 1][..k] == ss[..k];
    }
  }

  /** What frame k asks of the buffer once that is marked. */
  lemma FrameAsks(ss: seq<Slice>, k: nat, cfg: Config)
    requires Within(ss, k, cfg) && !EverMeets(ss, cfg, MaxRefs(cfg))
    requires Start(Run(ss[..k], cfg), ss[k], cfg).ok
    ensures var cur, t := CurrentPic(StartedAt(ss, k, cfg), ss[k], cfg), MarkedAt(ss, k, cfg);
            && Asks(cur, Count(t.pics, IsRef), ss[k], cfg) && cur.refPic == IsRef(cur)
            && Each(t.pics, InUse)
  {
    hide Start, Run, Marked, CurrentPic, Count;
    var st, s, g := Run(ss[..k], cfg), ss[k], StartedAt(ss, k, cfg);
    PrefixMeets(ss, k, cfg, MaxRefs(cfg));
    PrefixMeets(ss, k + 1, cfg, MaxRefs(cfg));
    assert ss[..k + 1][..k] == ss[..k];
    RunRefs(ss[..k], cfg);
    StartRefs(st, s, cfg);
    CurrentKeeps(g, s, cfg);
    CurrentNumbers(g, s, cfg);
    MarkedShape(g, s, cfg);
    if !s.isRef {
      MarkedRefs(g, s, cfg);
    }
  }

  lemma MarkedWithin(ss: seq<Slice>, b: nat, e: nat, k: nat, cfg: Config)
    requires Bounded(ss, b, e, cfg) && b <= k < e && Start(Run(ss[..k], cfg), ss[k], cfg).ok
    ensures WaitsWithin(MarkedAt(ss, k, cfg).pics, ss, b, k)
  {
    hide Start, Run, Marked, Count;
    forall c
      ensures Count(MarkedAt(ss, k, cfg).pics, WaitingAnd(PocFrom(c))) <= Count(ss[b..k], SliceFrom(c))
    {
      MarkedFromSequence(ss, cfg, b, k, c);
    }
  }

  lemma RunWithin(ss: seq<Slice>, b: nat, e: nat, k: nat, cfg: Config)
    requires Bounded(ss, b, e, cfg) && b < k < e
    ensures WaitsWithin(Run(ss[..k], cfg).pics, ss, b, k)
  {
    hide Run, Count;
    forall c
      ensures Count(Run(ss[..k], cfg).pics, WaitingAnd(PocFrom(c))) <= Count(ss[b..k], SliceFrom(c))
    {
      RunFromSequence(ss, cfg, b, k, c);
    }
  }

  /** Every frame of a sequence leaves covered. */
  lemma FrameTimely(ss: seq<Slice>, b: nat, e: nat, k: nat, cfg: Config)
    requires Bounded(ss, b, e, cfg) && b <= k < e && RoomToReorder(cfg) && !EverMeets(ss, cfg, MaxRefs(cfg))
    ensures Timely(ss, b, k, cfg)
  {
    hide Start, Run, Marked, CurrentPic, Stepped, WaitsWithin, Covered, Asks, Each, InTime, EverMeets;
    var st, s, g, t := Run(ss[..k], cfg), ss[k], StartedAt(ss, k, cfg), MarkedAt(ss, k, cfg);
    var r, cur := cfg.limits.maxNumReorderFrames, CurrentPic(g, s, cfg);
    RunNext(ss, k, cfg);
    if k == b {
      FirstIsDecoded(ss, b, cfg);
    } else {
      RunWithin(ss, b, e, k, cfg);
      StartCovered(st, s, cfg, ss, b, k);
      NothingOutput(g);
      MarkedSorted(g, s, cfg, g.emitted);
    }
    if Start(st, s, cfg).ok {
      FrameAsks(ss, k, cfg);
      MarkedWithin(ss, b, e, k, cfg);
      SteppedCovered(t, cur, cfg, ss, b, k);
      SteppedAppends(t, cur, cfg);
      CoveredOn(t.emitted, Stepped(t, cur, cfg).emitted, |OutBefore(ss, b, k, cfg)|, ss, b, k, r);
    }
  }

  /** Any coded video sequence that keeps num_reorder_frames, in a stream that keeps num_ref_frames, leaves in order. */
  lemma NormalOrder(ss: seq<Slice>, b: nat, e: nat, cfg: Config)
    requires Bounded(ss, b, e, cfg) && RoomToReorder(cfg) && !EverMeets(ss, cfg, MaxRefs(cfg))
    ensures LeavesInOrder(ss, b, e, cfg)
  {
    hide LeavesInOrder, Timely;
    forall k | b <= k < e
      ensures Timely(ss, b, k, cfg)
    {
      FrameTimely(ss, b, e, k, cfg);
    }
    SequenceInOrder(ss, b, e, cfg);
  }

  // ---- Streams that only slide ------------------------------------------------------------------------------

  /** The sliding window itself keeps num_ref_frames, unless a long-term frame fills it. */
  lemma {:induction false} SlidingNeverMeets(ss: seq<Slice>, cfg: Config)
    requires Numbered(ss, cfg) && SlidingOnly(ss) && MaxRefs(cfg) <= cfg.limits.maxNumFrames
    requires MaxRefs(cfg) >= 2 || forall i :: 0 <= i < |ss| ==> !ss[i].longTermReference
    ensures !EverMeets(ss, cfg, MaxRefs(cfg))
  {
    hide Start, Marked, Run, Count;
    if ss != [] {
      var before, s := ss[..|ss| - 1], ss[|ss| - 1];
      SlidingNeverMeets(before, cfg);
      SlidingNeverStuck(before, cfg);
      SlidingRunFits(before, cfg);
      AlwaysFitsNow(before, cfg);
      SlidingRunLongs(before, cfg);
      if MaxRefs(cfg) < 2 {
        NoLongFromIdr(before);
      }
      var st := Run(before, cfg);
      StartFits(st, s, cfg);
      if s.isRef {
        SlideLeavesRoom(Start(st, s, cfg).st, s, cfg);
      }
    }
  }

  lemma SlideLeavesRoom(st: State, s: Slice, cfg: Config)
    requires Plain(s) && s.isRef && Count(st.pics, IsLong) < MaxRefs(cfg)
    ensures Count(Marked(st, s, cfg).pics, IsRef) < MaxRefs(cfg)
  {
    hide Count, Slide, Marked;
    MarkedShape(st, s, cfg);
    UnmarkAllCounts(st.pics);
    SlideLeaves(st.pics, MaxRefs(cfg));
  }

  /** From the stream and the limits alone: in a stream marked by the sliding window, every sequence that keeps
      num_reorder_frames leaves in order. */
  lemma SlidingOrder(ss: seq<Slice>, b: nat, e: nat, cfg: Config)
    requires Bounded(ss, b, e, cfg) && RoomToReorder(cfg) && SlidingOnly(ss)
    requires MaxRefs(cfg) >= 2 || forall i :: 0 <= i < |ss| ==> !ss[i].longTermReference
    ensures LeavesInOrder(ss, b, e, cfg)
  {
    SlidingNeverMeets(ss, cfg);
    NormalOrder(ss, b, e, cfg);
  }
}
