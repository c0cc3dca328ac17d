/** How full the H.264 picture buffer gets: the exact condition under which a decoded frame fits, and which
    sliding-window streams never overflow. */
module H264Capacity {
  import opened Seqs
  import opened H264DpbSpec
  import opened H264Machine
  import opened H264Marking
  import opened H264Keep
  import opened H264Run

  predicate Fits(pics: seq<Pic>, cfg: Config) { |pics| <= cfg.limits.maxNumFrames }

  lemma OutputShape(pics: seq<Pic>, i: nat)
    requires i < |pics|
    ensures var r := Output(pics, i, false);
            && |r| <= |pics| && Count(r, IsRef) == Count(pics, IsRef) && Count(r, IsLong) == Count(pics, IsLong)
            && (Each(pics, InUse) ==> Each(r, InUse))
  {
    OutputCount(pics, i, false, IsRef);
    OutputCount(pics, i, false, IsLong);
  }

  lemma {:induction false} BumpWhileShape(st: State, toInsert: Option<Pic>, mode: BumpMode, cfg: Config)
    ensures var r := BumpWhile(st, toInsert, mode, cfg).pics;
            && |r| <= |st.pics|
            && Count(r, IsRef) == Count(st.pics, IsRef) && Count(r, IsLong) == Count(st.pics, IsLong)
            && (Each(st.pics, InUse) ==> Each(r, InUse))
    decreases Count(st.pics, Waiting)
  {
    hide NeedsBump, Output, Count, Each;
    if NeedsBump(st.pics, cfg.limits, st.lastPoc, st.lastNonRef, toInsert, mode) && Lowest(st.pics) >= 0 {
      OutputShape(st.pics, Lowest(st.pics));
      BumpWhileShape(BumpOnce(st, false, cfg), toInsert, mode, cfg);
    }
  }

  /** For a reference frame bumping finds room if and only if the stored references leave some: once nothing waits,
      everything left is a reference. */
  lemma RoomForReference(st: State, cur: Pic, mode: BumpMode, cfg: Config)
    requires Each(st.pics, InUse) && cur.refPic
    ensures HasEmpty(BumpWhile(st, Some(cur), mode, cfg).pics, cfg.limits)
       <==> Count(st.pics, IsRef) < cfg.limits.maxNumFrames
  {
    var b := BumpWhile(st, Some(cur), mode, cfg);
    BumpWhileShape(st, Some(cur), mode, cfg);
    BumpWhileStops(st, Some(cur), mode, cfg);
    CountAll(b.pics, IsRef, |b.pics|);
  }

  lemma DeleteUnusedShape(pics: seq<Pic>)
    ensures var r := DeleteUnused(pics);
            && Each(r, InUse) && |r| <= |pics|
            && Count(r, IsRef) == Count(pics, IsRef) && Count(r, IsLong) == Count(pics, IsLong)
  {
    CountFilter(pics, InUse, IsRef);
    CountFilter(pics, InUse, IsLong);
    FilterMembers(pics, |pics|, InUse);
    forall i | 0 <= i < |DeleteUnused(pics)|
      ensures InUse(DeleteUnused(pics)[i])
    {
      assert DeleteUnused(pics)[i] in pics[..|pics|];
    }
  }

  lemma MarkedShape(st: State, s: Slice, cfg: Config)
    ensures var t, m := Marked(st, s, cfg), MarkedState(st, s, cfg);
            && Each(t.pics, InUse) && |t.pics| <= |st.pics|
            && (!m.memMgmt5 ==> Count(t.pics, IsRef) == Count(m.pics, IsRef))
            && (!m.memMgmt5 ==> Count(t.pics, IsLong) == Count(m.pics, IsLong))
  {
    hide MarkedState, Count, Filter;
    DeleteUnusedShape(MarkedState(st, s, cfg).pics);
    MarkedStateAlike(st, s, cfg);
  }

  /** A decoded frame fits if and only if it is not a reference frame that meets a buffer full of references. */
  lemma FinishFits(st: State, s: Slice, cfg: Config)
    requires Fits(st.pics, cfg)
    ensures Fits(Finish(st, s, cfg).pics, cfg)
       <==> !(s.isRef && Count(Marked(st, s, cfg).pics, IsRef) >= cfg.limits.maxNumFrames)
  {
    hide MarkedState, Marked, BumpWhile;
    var cur, t := CurrentPic(st, s, cfg), Marked(st, s, cfg);
    CurrentKeeps(st, s, cfg);
    MarkedShape(st, s, cfg);
    BumpWhileShape(t, Some(cur), cfg.mode, cfg);
    if s.isRef {
      RoomForReference(t, cur, cfg.mode, cfg);
    }
    var r := Insert(t, cur, cfg);
    BumpWhileShape(r, None, cfg.mode, cfg);
    if !Fits(r.pics, cfg) {
      BumpWhileUnfolds(r, None, cfg.mode, cfg);
    }
  }

  // ---- Gaps ---------------------------------------------------------------------------------------------

  lemma RenumberCounts(pics: seq<Pic>, n: int, max: int)
    ensures var r := Map(pics, Renumber(n, max));
            Count(r, IsRef) == Count(pics, IsRef) && Count(r, IsLong) == Count(pics, IsLong)
  {
    CountSame(Map(pics, Renumber(n, max)), IsRef, pics, IsRef, |pics|);
    CountSame(Map(pics, Renumber(n, max)), IsLong, pics, IsLong, |pics|);
  }

  /** An inferred frame is stored if and only if the long-term references leave the window some room, and then it
      fits. */
  lemma GapStepFits(st: State, n: int, poc: int, cfg: Config)
    requires Fits(st.pics, cfg) && MaxRefs(cfg) <= cfg.limits.maxNumFrames
    ensures var g := GapStep(st, n, poc, cfg);
            && Fits(g.st.pics, cfg) && Count(g.st.pics, IsLong) == Count(st.pics, IsLong)
            && (g.ok <==> Count(st.pics, IsLong) < MaxRefs(cfg))
            && (g.ok ==> g.st.pics != [])
  {
    hide BumpWhile, Slide, Filter, Count;
    var renumbered, frame := Map(st.pics, Renumber(n, cfg.maxFrameNum)), GapFrame(n, poc);
    RenumberCounts(st.pics, n, cfg.maxFrameNum);
    SlideLeaves(renumbered, MaxRefs(cfg));
    var slid := Slide(renumbered, MaxRefs(cfg));
    if slid.ok {
      var cleaned := st.(pics := DeleteUnused(slid.pics));
      DeleteUnusedShape(slid.pics);
      RoomForReference(cleaned, frame, NormalLatency, cfg);
      BumpWhileShape(cleaned, Some(frame), NormalLatency, cfg);
      CountAppend(BumpWhile(cleaned, Some(frame), NormalLatency, cfg).pics, frame, IsLong);
    }
  }

  lemma {:induction false} GapLoopFits(st: State, n: int, target: int, poc: int, cfg: Config)
    requires 0 <= n < cfg.maxFrameNum && 0 <= target < cfg.maxFrameNum
    requires Fits(st.pics, cfg) && MaxRefs(cfg) <= cfg.limits.maxNumFrames
    ensures var g := GapLoop(st, n, target, poc, cfg);
            && Fits(g.st.pics, cfg) && Count(g.st.pics, IsLong) == Count(st.pics, IsLong)
            && (g.ok <==> n == target || Count(st.pics, IsLong) < MaxRefs(cfg))
    decreases Ahead(n, target, cfg.maxFrameNum)
  {
    hide GapStep, Count;
    if n != target {
      GapStepFits(st, n, poc, cfg);
      var g := GapStep(st, n, poc, cfg);
      if g.ok {
        GapLoopFits(g.st, Next(n, cfg.maxFrameNum), target, poc, cfg);
      }
    }
  }

  lemma StartFits(st: State, s: Slice, cfg: Config)
    requires ValidNumbers(st, s, cfg) && Fits(st.pics, cfg) && MaxRefs(cfg) <= cfg.limits.maxNumFrames
    requires s.idr ==> s.frameNum == 0
    ensures var g := Start(st, s, cfg);
            && Fits(g.st.pics, cfg)
            && (g.ok <==> s.idr || !IsGap(st, s, cfg) || Count(st.pics, IsLong) < MaxRefs(cfg))
            && Count(g.st.pics, IsLong) == if s.idr then 0 else Count(st.pics, IsLong)
  {
    hide GapLoop, BumpAll;
    var st0 := if s.idr then st.(prevRefFrameNum := 0) else st;
    if IsGap(st0, s, cfg) {
      GapLoopFits(st0, Next(st0.prevRefFrameNum, cfg.maxFrameNum), s.frameNum, s.gapPoc, cfg);
    }
    var g := HandleGap(st0, s, cfg);
    if g.ok {
      RenumberCounts(if s.idr then [] else g.st.pics, s.frameNum, cfg.maxFrameNum);
    }
  }

  lemma StartKeepsFits(st: State, s: Slice, cfg: Config)
    requires ValidNumbers(st, s, cfg) && Fits(st.pics, cfg) && MaxRefs(cfg) <= cfg.limits.maxNumFrames
    ensures Fits(Start(st, s, cfg).st.pics, cfg)
  {
    hide GapLoop, BumpAll, Count;
    var st0 := if s.idr then st.(prevRefFrameNum := 0) else st;
    if IsGap(st0, s, cfg) {
      GapLoopFits(st0, Next(st0.prevRefFrameNum, cfg.maxFrameNum), s.frameNum, s.gapPoc, cfg);
    }
  }

  // ---- Runs with any marking ----------------------------------------------------------------------------

  /** The buffer fits after every finished frame. */
  ghost predicate AlwaysFits(ss: seq<Slice>, cfg: Config)
    requires Numbered(ss, cfg)
  {
    ss == [] || (AlwaysFits(ss[..|ss| - 1], cfg) && Fits(Run(ss, cfg).pics, cfg))
  }

  /** How many references marking leaves for the last frame of the stream. */
  ghost function LeftForLast(ss: seq<Slice>, cfg: Config): nat
    requires Numbered(ss, cfg) && ss != []
  {
    var s := ss[|ss| - 1];
    Count(Marked(Start(Run(ss[..|ss| - 1], cfg), s, cfg).st, s, cfg).pics, IsRef)
  }

  /** The last frame is a reference frame that is decoded and meets at least so many references. */
  ghost predicate MeetsAtLast(ss: seq<Slice>, cfg: Config, limit: nat)
    requires Numbered(ss, cfg) && ss != []
  {
    var s := ss[|ss| - 1];
    s.isRef && Start(Run(ss[..|ss| - 1], cfg), s, cfg).ok && LeftForLast(ss, cfg) >= limit
  }

  ghost predicate EverMeets(ss: seq<Slice>, cfg: Config, limit: nat)
    requires Numbered(ss, cfg)
  {
    ss != [] && (EverMeets(ss[..|ss| - 1], cfg, limit) || MeetsAtLast(ss, cfg, limit))
  }

  /** Whatever the marking, the buffer always fits if and only if no reference frame meets one full of references. */
  lemma {:induction false} RunFits(ss: seq<Slice>, cfg: Config)
    requires Numbered(ss, cfg) && MaxRefs(cfg) <= cfg.limits.maxNumFrames
    ensures AlwaysFits(ss, cfg) <==> !EverMeets(ss, cfg, cfg.limits.maxNumFrames)
  {
    hide Start, Finish, Marked, Count;
    if ss != [] {
      var before, s := ss[..|ss| - 1], ss[|ss| - 1];
      RunFits(before, cfg);
      if AlwaysFits(before, cfg) {
        AlwaysFitsNow(before, cfg);
        StartKeepsFits(Run(before, cfg), s, cfg);
        FinishFits(Start(Run(before, cfg), s, cfg).st, s, cfg);
      }
    }
  }

  lemma {:induction false} MeetsMore(ss: seq<Slice>, cfg: Config, low: nat, high: nat)
    requires Numbered(ss, cfg) && low <= high && !EverMeets(ss, cfg, low)
    ensures !EverMeets(ss, cfg, high)
  {
    if ss != [] {
      MeetsMore(ss[..|ss| - 1], cfg, low, high);
    }
  }

  /** So a stream whose marking leaves fewer than num_ref_frames references for each reference frame, as section
      8.2.5.1 asks, never overflows it. */
  lemma ConformingRunFits(ss: seq<Slice>, cfg: Config)
    requires Numbered(ss, cfg) && MaxRefs(cfg) <= cfg.limits.maxNumFrames && !EverMeets(ss, cfg, MaxRefs(cfg))
    ensures AlwaysFits(ss, cfg)
  {
    MeetsMore(ss, cfg, MaxRefs(cfg), cfg.limits.maxNumFrames);
    RunFits(ss, cfg);
  }

  // ---- Runs that only slide -----------------------------------------------------------------------------

  predicate Slides(s: Slice) { s.isRef && !s.idr }

  /** A frame whose marking, if it has any, is that of an IDR frame or of the sliding window. */
  predicate Plain(s: Slice) { Slides(s) ==> !s.adaptive }

  /** Sliding-window marking throughout; an IDR frame is a reference with frame_num zero (section 7.4.3). */
  predicate SlidingOnly(ss: seq<Slice>) {
    forall i :: 0 <= i < |ss| ==> (ss[i].idr ==> ss[i].isRef && ss[i].frameNum == 0) && Plain(ss[i])
  }

  /** Whether the latest IDR frame made itself a long-term reference. */
  predicate LongFromIdr(ss: seq<Slice>) {
    ss != [] &&
    var s := ss[|ss| - 1];
    if s.idr then s.longTermReference else LongFromIdr(ss[..|ss| - 1])
  }

  lemma UnmarkAllCounts(pics: seq<Pic>)
    ensures Count(Map(pics, Unmark), IsRef) == 0 && Count(Map(pics, Unmark), IsLong) == 0
  {
    CountAll(Map(pics, Unmark), IsRef, |pics|);
    CountAll(Map(pics, Unmark), IsLong, |pics|);
  }

  lemma LongsAreReferences(pics: seq<Pic>)
    ensures Count(pics, IsLong) <= Count(pics, IsRef)
  {
    CountMonotone(pics, IsLong, IsRef, |pics|);
  }

  /** References and long-term references once a sliding-window frame has marked the buffer. */
  lemma SlidingMarkedCounts(st: State, s: Slice, cfg: Config)
    requires Plain(s) && (s.idr ==> s.isRef)
    ensures var t, longs := Marked(st, s, cfg), Count(st.pics, IsLong);
            && (s.idr ==> Count(t.pics, IsRef) == 0)
            && Count(t.pics, IsLong) == (if s.idr then 0 else longs)
            && (Slides(s) && MaxRefs(cfg) <= cfg.limits.maxNumFrames ==>
                  (Count(t.pics, IsRef) >= cfg.limits.maxNumFrames <==> longs >= cfg.limits.maxNumFrames))
  {
    hide Count, Slide, Marked;
    MarkedShape(st, s, cfg);
    UnmarkAllCounts(st.pics);
    LongsAreReferences(st.pics);
    SlideLeaves(st.pics, MaxRefs(cfg));
  }

  lemma FinishLongs(st: State, s: Slice, cfg: Config)
    requires Plain(s) && (s.idr ==> s.isRef)
    ensures Count(Finish(st, s, cfg).pics, IsLong)
         == if s.idr then (if s.longTermReference then 1 else 0) else Count(st.pics, IsLong)
  {
    hide Marked, BumpWhile, Count;
    var cur, t := CurrentPic(st, s, cfg), Marked(st, s, cfg);
    SlidingMarkedCounts(st, s, cfg);
    var b := BumpWhile(t, Some(cur), cfg.mode, cfg);
    BumpWhileShape(t, Some(cur), cfg.mode, cfg);
    CountAppend(b.pics, Stored(cur), IsLong);
    BumpWhileShape(Insert(t, cur, cfg), None, cfg.mode, cfg);
  }

  /** The one frame that cannot fit: a sliding-window reference frame, with no gap before it, in a buffer of one
      frame that the IDR frame keeps as a long-term reference. */
  ghost predicate Stuck(before: seq<Slice>, s: Slice, cfg: Config)
    requires Numbered(before, cfg) && 0 <= s.frameNum < cfg.maxFrameNum
  {
    && cfg.limits.maxNumFrames == 1
    && LongFromIdr(before)
    && Slides(s)
    && !IsGap(Run(before, cfg), s, cfg)
  }

  lemma StepFits(st: State, s: Slice, cfg: Config)
    requires ValidNumbers(st, s, cfg) && Fits(st.pics, cfg) && MaxRefs(cfg) <= cfg.limits.maxNumFrames
    requires Plain(s) && (s.idr ==> s.isRef && s.frameNum == 0)
    ensures Fits(Step(st, s, cfg).pics, cfg)
       <==> !(Slides(s) && Count(st.pics, IsLong) >= cfg.limits.maxNumFrames && !IsGap(st, s, cfg))
  {
    hide Start, Finish, Marked, Count, IsGap;
    StartFits(st, s, cfg);
    var g := Start(st, s, cfg);
    if g.ok {
      FinishFits(g.st, s, cfg);
      SlidingMarkedCounts(g.st, s, cfg);
    }
  }

  lemma StepLongs(st: State, s: Slice, cfg: Config)
    requires ValidNumbers(st, s, cfg) && Fits(st.pics, cfg) && MaxRefs(cfg) <= cfg.limits.maxNumFrames
    requires Plain(s) && (s.idr ==> s.isRef && s.frameNum == 0)
    ensures Count(Step(st, s, cfg).pics, IsLong)
         == if s.idr then (if s.longTermReference then 1 else 0) else Count(st.pics, IsLong)
  {
    hide Start, Finish, Count, IsGap;
    StartFits(st, s, cfg);
    var g := Start(st, s, cfg);
    if g.ok {
      FinishLongs(g.st, s, cfg);
    }
  }

  ghost predicate EverStuck(ss: seq<Slice>, cfg: Config)
    requires Numbered(ss, cfg)
  {
    ss != [] && (EverStuck(ss[..|ss| - 1], cfg) || Stuck(ss[..|ss| - 1], ss[|ss| - 1], cfg))
  }

  lemma {:induction false} SlidingRunLongs(ss: seq<Slice>, cfg: Config)
    requires Numbered(ss, cfg) && SlidingOnly(ss) && MaxRefs(cfg) <= cfg.limits.maxNumFrames && AlwaysFits(ss, cfg)
    ensures Count(Run(ss, cfg).pics, IsLong) == if LongFromIdr(ss) then 1 else 0
  {
    hide Step;
    if ss != [] {
      SlidingRunLongs(ss[..|ss| - 1], cfg);
      AlwaysFitsNow(ss[..|ss| - 1], cfg);
      StepLongs(Run(ss[..|ss| - 1], cfg), ss[|ss| - 1], cfg);
    }
  }

  lemma AlwaysFitsNow(ss: seq<Slice>, cfg: Config)
    requires Numbered(ss, cfg) && AlwaysFits(ss, cfg) && MaxRefs(cfg) <= cfg.limits.maxNumFrames
    ensures Fits(Run(ss, cfg).pics, cfg)
  {
  }

  /** A sliding-window stream overflows the buffer at some frame if and only if it meets the one stuck situation. */
  lemma {:induction false} SlidingRunFits(ss: seq<Slice>, cfg: Config)
    requires Numbered(ss, cfg) && SlidingOnly(ss) && MaxRefs(cfg) <= cfg.limits.maxNumFrames
    ensures AlwaysFits(ss, cfg) <==> !EverStuck(ss, cfg)
  {
    hide Step, IsGap;
    if ss != [] {
      var before, s := ss[..|ss| - 1], ss[|ss| - 1];
      SlidingRunFits(before, cfg);
      if AlwaysFits(before, cfg) {
        AlwaysFitsNow(before, cfg);
        SlidingRunLongs(before, cfg);
        StepFits(Run(before, cfg), s, cfg);
      }
    }
  }

  /** With room for two frames, or without long-term IDR frames, it never does. */
  lemma {:induction false} SlidingNeverStuck(ss: seq<Slice>, cfg: Config)
    requires Numbered(ss, cfg)
    requires cfg.limits.maxNumFrames >= 2 || forall i :: 0 <= i < |ss| ==> !ss[i].longTermReference
    ensures !EverStuck(ss, cfg)
  {
    if ss != [] {
      SlidingNeverStuck(ss[..|ss| - 1], cfg);
      if cfg.limits.maxNumFrames < 2 {
        NoLongFromIdr(ss[..|ss| - 1]);
      }
    }
  }

  lemma {:induction false} NoLongFromIdr(ss: seq<Slice>)
    requires forall i :: 0 <= i < |ss| ==> !ss[i].longTermReference
    ensures !LongFromIdr(ss)
  {
    if ss != [] {
      NoLongFromIdr(ss[..|ss| - 1]);
    }
  }

  /** Two frames that overflow a buffer of one: the reference marking fails and the frame is stored all the same. */
  lemma SlidingCanOverflow()
    ensures var cfg := Config(Limits(1, 0), 1, 16, false, NormalLatency, false, 0);
            var idr := Slice(0, 0, 0, true, true, true, false, false, [], 0);
            var next := Slice(1, 2, 1, true, false, false, false, false, [], 0);
            SlidingOnly([idr, next]) && MaxRefs(cfg) <= cfg.limits.maxNumFrames
            && !Fits(Run([idr, next], cfg).pics, cfg)
  {
    hide Run, IsGap;
    var cfg := Config(Limits(1, 0), 1, 16, false, NormalLatency, false, 0);
    var idr := Slice(0, 0, 0, true, true, true, false, false, [], 0);
    var next := Slice(1, 2, 1, true, false, false, false, false, [], 0);
    var ss := [idr, next];
    assert ss[..1] == [idr] && [idr][..0] == [];
    assert LongFromIdr([idr]);
    NotAGap(Run([idr], cfg), next, cfg);
    SlidingRunFits([idr], cfg);
    SlidingRunFits(ss, cfg);
    assert Stuck([idr], next, cfg);
    assert !Stuck([], idr, cfg);
  }

  lemma NotAGap(st: State, s: Slice, cfg: Config)
    requires ValidNumbers(st, s, cfg) && !cfg.gapsAllowed
    ensures !IsGap(st, s, cfg)
  {
  }
}
