/** Which limits put all conforming streams in order: none that lets frames out early, unless nothing may be reordered;
    and in the normal mode a buffer that holds num_reorder_frames beside the references, and no smaller one. */
module H264OrderLimits {
  import opened Seqs
  import opened H264DpbSpec
  import opened H264Machine
  import opened H264Keep
  import opened H264Run
  import opened H264Capacity
  import opened H264Reorder
  import opened H264Order
  import opened H264NormalOrder
  import opened H264OrderExact
  import opened Modulo

  // ---- Steps without gaps or eviction ----------------------------------------------------------------------

  /** No gap before the frame, and the window has room for it. */
  predicate Follows(st: State, s: Slice, cfg: Config) {
    && ValidNumbers(st, s, cfg) && !s.idr && !s.adaptive && s.frameNum == Next(st.prevRefFrameNum, cfg.maxFrameNum)
    && (s.isRef ==> Count(st.pics, IsRef) < MaxRefs(cfg))
  }

  lemma FollowsMarked(st: State, s: Slice, cfg: Config)
    requires Follows(st, s, cfg)
    ensures var g := Start(st, s, cfg);
            && g.ok && MarkedState(g.st, s, cfg).pics == Map(st.pics, Renumber(s.frameNum, cfg.maxFrameNum))
            && CurrentPic(g.st, s, cfg) == NewPic(s) && g.st.prevRefFrameNum == st.prevRefFrameNum
  {
    hide Count;
    RenumberCounts(st.pics, s.frameNum, cfg.maxFrameNum);
  }

  function Any(a: Pic, b: Pic): bool { true }

  /** h survives a step when the new frame has it and no later change to a frame can break it. */
  lemma FollowsKeeps(st: State, s: Slice, cfg: Config, h: Pic -> bool)
    requires Follows(st, s, cfg) && Lasting(Any, h) && Each(st.pics, h) && h(Stored(NewPic(s)))
    ensures Each(Step(st, s, cfg).pics, h)
  {
    hide Start, MarkedState, Finish, Lasting;
    var g, x := Start(st, s, cfg).st, Stored(NewPic(s));
    FollowsMarked(st, s, cfg);
    RenumberWeaker(st.pics, s.frameNum, cfg.maxFrameNum);
    WeakerKeeps(MarkedState(g, s, cfg).pics, st.pics, Any, h);
    assert Keeps(MarkedState(g, s, cfg).pics, Any, And(h, Any, x));
    FinishKeeps(g, s, cfg, Any, h);
  }

  lemma FinishRefs(st: State, s: Slice, cfg: Config)
    requires MarkedState(st, s, cfg).memMgmt5 == false
    ensures Count(Finish(st, s, cfg).pics, IsRef)
         == Count(MarkedState(st, s, cfg).pics, IsRef) + if s.isRef then 1 else 0
  {
    hide MarkedState, Marked, Insert, BumpWhile, Count;
    CurrentKeeps(st, s, cfg);
    MarkedShape(st, s, cfg);
    SteppedRefs(Marked(st, s, cfg), CurrentPic(st, s, cfg), cfg);
  }

  // ---- A full buffer ------------------------------------------------------------------------------------------

  /** As many reference frames as there may be, then other frames; the order count is the place in the stream. */
  function FillFrame(k: nat, cfg: Config): (s: Slice)
    requires cfg.maxFrameNum > 0
    ensures 0 <= s.frameNum < cfg.maxFrameNum
  {
    var refs := Min(k, MaxRefs(cfg));
    Slice(k, k, refs % cfg.maxFrameNum, k < MaxRefs(cfg), k == 0, false, false, false, [], 0)
  }

  function Fill(n: nat, cfg: Config): (ss: seq<Slice>)
    requires cfg.maxFrameNum > 0
    ensures |ss| == n && forall k {:trigger ss[k]} :: 0 <= k < n ==> ss[k] == FillFrame(k, cfg)
    ensures Numbered(ss, cfg)
  {
    seq(n, k requires 0 <= k => FillFrame(k, cfg))
  }

  lemma FillOrdinary(n: nat, cfg: Config)
    requires cfg.maxFrameNum > 0
    ensures Ordinary(Fill(n, cfg))
  {
    assert FillFrame(0, cfg).frameNum == 0;
  }

  lemma FillLast(n: nat, cfg: Config)
    requires cfg.maxFrameNum > 0
    ensures Fill(n + 1, cfg) == Fill(n, cfg) + [FillFrame(n, cfg)]
  {
  }

  lemma {:induction false} FillCount(n: nat, c: nat, cfg: Config)
    requires cfg.maxFrameNum > 0
    ensures Count(Fill(n, cfg), SliceFrom(c)) == if c < n then n - c else 0
  {
    if n > 0 {
      FillCount(n - 1, c, cfg);
      FillLast(n - 1, cfg);
      CountAppend(Fill(n - 1, cfg), FillFrame(n - 1, cfg), SliceFrom(c));
    }
  }

  /** Nothing in it is reordered. */
  lemma FillBounded(n: nat, cfg: Config)
    requires cfg.maxFrameNum > 0 && n > 0
    ensures Bounded(Fill(n, cfg), 0, n, cfg)
  {
    hide Run;
    var ss := Fill(n, cfg);
    forall j | 0 <= j < n
      ensures InTime(ss, 0, j, cfg.limits.maxNumReorderFrames)
    {
      assert ss[0..j] == Fill(j, cfg);
      FillCount(j, j + 1, cfg);
    }
  }

  function LowReference(m: int): Pic -> bool { (p: Pic) => IsRef(p) ==> p.poc < m }

  lemma LowLasts(m: int)
    ensures Lasting(Any, LowReference(m))
  {
  }

  /** The buffer after the first k frames. */
  ghost predicate Filled(st: State, k: nat, cfg: Config) {
    var m := MaxRefs(cfg);
    && cfg.maxFrameNum > 0 && k > 0 && st.prevRefFrameNum == (Min(k, m) - 1) % cfg.maxFrameNum
    && Count(st.pics, IsRef) == Min(k, m) && Each(st.pics, LowReference(m))
    && Count(st.finished, PocFrom(m)) == k - Min(k, m) && st.discarded == []
  }

  lemma NextMod(x: nat, max: nat)
    requires max > 0
    ensures Next(x % max, max) == (x + 1) % max
  {
    DivMod(x, max);
    if x % max + 1 == max {
      ModUnique(x + 1, max, x / max + 1, 0);
    } else {
      ModUnique(x + 1, max, x / max, x % max + 1);
    }
  }

  /** The first frame finds nothing. */
  lemma FirstFinds(cfg: Config)
    requires cfg.maxFrameNum > 0
    ensures var s := FillFrame(0, cfg);
            var g := Start(Initial, s, cfg);
            && g.ok && g.st.pics == [] && MarkedState(g.st, s, cfg).pics == [] && Marked(g.st, s, cfg).pics == []
            && g.st.discarded == [] && g.st.finished == [] && Run(Fill(1, cfg), cfg) == Step(Initial, s, cfg)
  {
    hide Finish;
    BumpAllUnfolds(Initial, cfg);
    assert Fill(1, cfg)[..0] == [];
  }

  lemma FillFirst(cfg: Config)
    requires cfg.maxFrameNum > 0
    ensures Filled(Run(Fill(1, cfg), cfg), 1, cfg)
  {
    hide Start, Marked, Finish, Insert, BumpWhile, Stepped, Run, Lasting;
    var s := FillFrame(0, cfg);
    FirstFinds(cfg);
    var g := Start(Initial, s, cfg).st;
    LowLasts(MaxRefs(cfg));
    FinishKeeps(g, s, cfg, Any, LowReference(MaxRefs(cfg)));
    FinishRefs(g, s, cfg);
    StartSound(Initial, s, cfg);
    MarkedSound(g, s, cfg);
    MarkedEmits(g, s, cfg);
    var t, cur := Marked(g, s, cfg), CurrentPic(g, s, cfg);
    SteppedFinishes(t, cur, cfg);
    SteppedAppends(t, cur, cfg);
    SteppedNumber(t, cur, cfg);
    StepIsStepped(Initial, s, cfg);
  }

  lemma SteppedNumber(t: State, cur: Pic, cfg: Config)
    requires Sound(t, cfg)
    ensures Stepped(t, cur, cfg).prevRefFrameNum == t.prevRefFrameNum
  {
    hide BumpWhile, Insert;
    InsertSound(t, cur, cfg);
    BumpWhilePending(Insert(t, cur, cfg), None, cfg.mode, cfg);
  }

  lemma FillNext(st: State, k: nat, cfg: Config)
    requires Filled(st, k, cfg) && Sound(st, cfg)
    ensures Filled(Step(st, FillFrame(k, cfg), cfg), k + 1, cfg)
  {
    hide Start, Finish, Marked, MarkedState, Stepped, Count, Lasting;
    var s, m := FillFrame(k, cfg), MaxRefs(cfg);
    NextMod(Min(k, m) - 1, cfg.maxFrameNum);
    assert Follows(st, s, cfg);
    FollowsMarked(st, s, cfg);
    LowLasts(m);
    FollowsKeeps(st, s, cfg, LowReference(m));
    var g := Start(st, s, cfg).st;
    RenumberCounts(st.pics, s.frameNum, cfg.maxFrameNum);
    CurrentNumbers(g, s, cfg);
    FinishRefs(g, s, cfg);
    StepAppends(st, s, cfg);
    CountAppend(st.finished, NewPic(s), PocFrom(m));
    StartSound(st, s, cfg);
    MarkedSound(g, s, cfg);
    SteppedNumber(Marked(g, s, cfg), NewPic(s), cfg);
    StepIsStepped(st, s, cfg);
  }

  lemma {:induction false} FillRuns(k: nat, cfg: Config)
    requires cfg.maxFrameNum > 0 && k > 0
    ensures Filled(Run(Fill(k, cfg), cfg), k, cfg)
  {
    hide Step, Filled;
    if k == 1 {
      FillFirst(cfg);
    } else {
      FillRuns(k - 1, cfg);
      FillLast(k - 1, cfg);
      assert Fill(k, cfg)[..k - 1] == Fill(k - 1, cfg);
      FillNext(Run(Fill(k - 1, cfg), cfg), k - 1, cfg);
    }
  }

  /** A reference below m is none of the waiting frames from m on. */
  lemma {:induction false} Apart(pics: seq<Pic>, m: int, n: nat)
    requires n <= |pics| && Each(pics, LowReference(m))
    ensures CountTo(pics, n, IsRef) + CountTo(pics, n, WaitingAnd(PocFrom(m))) <= n
  {
    if n > 0 {
      Apart(pics, m, n - 1);
      assert LowReference(m)(pics[n - 1]);
    }
  }

  /** One frame more than the buffer holds: references do not leave it, so some other frame has. */
  lemma FillOverflows(cfg: Config) returns (i: nat)
    requires cfg.maxFrameNum > 0 && MaxRefs(cfg) <= cfg.limits.maxNumFrames
    ensures var out := Run(Fill(cfg.limits.maxNumFrames + 1, cfg), cfg).emitted;
            i < |out| && out[i].poc >= MaxRefs(cfg)
  {
    hide Run, Conserved;
    var n, m := cfg.limits.maxNumFrames, MaxRefs(cfg);
    var ss := Fill(n + 1, cfg);
    var st := Run(ss, cfg);
    FillRuns(n + 1, cfg);
    FillOrdinary(n + 1, cfg);
    SlidingNeverMeets(ss, cfg);
    ConformingRunFits(ss, cfg);
    AlwaysFitsNow(ss, cfg);
    Apart(st.pics, m, |st.pics|);
    RunConserves(ss, cfg, PocFrom(m));
    ConservedCount(st, PocFrom(m));
    CountAll(st.emitted, PocFrom(m), |st.emitted|);
    i :| 0 <= i < |st.emitted| && PocFrom(m)(st.emitted[i]);
  }

  lemma ConservedCount(st: State, q: Pic -> bool)
    requires Conserved(st, q) && st.discarded == []
    ensures Count(st.finished, q) == Count(st.emitted, q) + Count(st.pics, WaitingAnd(q))
  {
  }

  /** In a sequence from the start of the stream all that is out at its end is covered, if it left covered. */
  lemma AllCovered(ss: seq<Slice>, i: nat, cfg: Config)
    requires Bounded(ss, 0, |ss|, cfg) && AllTimely(ss, 0, |ss|, cfg) && i < |Run(ss, cfg).emitted|
    ensures Covered(ss, 0, |ss| - 1, Run(ss, cfg).emitted[i].poc, cfg.limits.maxNumReorderFrames)
  {
    hide MarkedAt, Run, SameSequence, InTime, AllTimely;
    var n, st := |ss|, Run(ss, cfg);
    assert ss[..n] == ss && ss[0..n] == ss;
    RunSorted(ss, 0, n, n, cfg);
    FirstOutputsNothing(ss, cfg);
    assert st.emitted[0..] == st.emitted;
    CountMonotone(ss, SliceFrom(Last(st).poc), SliceFrom(st.emitted[i].poc), n);
  }

  /** So a buffer that is too small lets that frame out before it is covered. */
  lemma FillIsEarly(cfg: Config)
    requires cfg.maxFrameNum > 0
    requires MaxRefs(cfg) <= cfg.limits.maxNumFrames < MaxRefs(cfg) + cfg.limits.maxNumReorderFrames
    ensures var n := cfg.limits.maxNumFrames + 1;
            Bounded(Fill(n, cfg), 0, n, cfg) && Ordinary(Fill(n, cfg)) && !AllTimely(Fill(n, cfg), 0, n, cfg)
  {
    hide Run, Bounded, AllTimely, Count, Ordinary;
    var n := cfg.limits.maxNumFrames + 1;
    var ss := Fill(n, cfg);
    FillBounded(n, cfg);
    FillOrdinary(n, cfg);
    var i := FillOverflows(cfg);
    var c := Run(ss, cfg).emitted[i].poc;
    assert ss[0..n] == ss;
    FillCount(n, c, cfg);
    assert !Covered(ss, 0, n - 1, c, cfg.limits.maxNumReorderFrames);
    if AllTimely(ss, 0, n, cfg) {
      AllCovered(ss, i, cfg);
      assert false;
    }
  }

  // ---- Early output -------------------------------------------------------------------------------------------

  /** IDR 0, non-reference 4, reference 2. */
  function Early(cfg: Config): (ss: seq<Slice>)
    requires cfg.maxFrameNum > 0
    ensures |ss| == 3 && ss[0] == FillFrame(0, cfg)
  {
    var next := Next(0, cfg.maxFrameNum);
    [FillFrame(0, cfg), Slice(1, 4, next, false, false, false, false, false, [], 0),
     Slice(2, 2, next, true, false, false, false, false, [], 0)]
  }

  lemma EarlyBounded(cfg: Config)
    requires cfg.maxFrameNum > 0 && cfg.limits.maxNumReorderFrames > 0
    ensures Bounded(Early(cfg), 0, 3, cfg) && Ordinary(Early(cfg)) && Count(Early(cfg), SliceFrom(4)) == 1
  {
    hide Run;
    var ss := Early(cfg);
    assert ss[0..0] == [] && ss[0..1] == [] + [ss[0]] && ss[0..2] == ss[0..1] + [ss[1]] && ss == ss[0..2] + [ss[2]];
    forall c: int
      ensures Count(ss[0..1], SliceFrom(c)) == if 0 >= c then 1 else 0
      ensures Count(ss[0..2], SliceFrom(c)) == Count(ss[0..1], SliceFrom(c)) + if 4 >= c then 1 else 0
    {
      CountAppend([], ss[0], SliceFrom(c));
      CountAppend(ss[0..1], ss[1], SliceFrom(c));
    }
    CountAppend(ss[0..2], ss[2], SliceFrom(4));
    assert InTime(ss, 0, 0, cfg.limits.maxNumReorderFrames) && InTime(ss, 0, 1, cfg.limits.maxNumReorderFrames);
    assert InTime(ss, 0, 2, cfg.limits.maxNumReorderFrames);
  }

  /** Whatever waits is of this order count, and a reference or not. */
  function WaitsAt(c: int, refPic: bool): Pic -> bool { (p: Pic) => p.needed ==> p.poc == c && p.refPic == refPic }

  lemma WaitsLasts(c: int, refPic: bool)
    ensures Lasting(Any, WaitsAt(c, refPic))
  {
  }

  predicate NoGap(st: State, s: Slice, cfg: Config) {
    ValidNumbers(st, s, cfg) && !s.idr && !s.adaptive && s.frameNum == Next(st.prevRefFrameNum, cfg.maxFrameNum)
  }

  lemma NoGapMarked(st: State, s: Slice, cfg: Config, h: Pic -> bool)
    requires NoGap(st, s, cfg) && Lasting(Any, h) && Each(st.pics, h)
    ensures var g := Start(st, s, cfg);
            && g.ok && CurrentPic(g.st, s, cfg) == NewPic(s)
            && Each(Marked(g.st, s, cfg).pics, h) && |Marked(g.st, s, cfg).pics| <= |st.pics|
  {
    hide Lasting, AllWeaker, Filter, Slide;
    var r := Map(st.pics, Renumber(s.frameNum, cfg.maxFrameNum));
    RenumberWeaker(st.pics, s.frameNum, cfg.maxFrameNum);
    WeakerKeeps(r, st.pics, Any, h);
    SlideWeaker(r, MaxRefs(cfg));
    WeakerKeeps(Slide(r, MaxRefs(cfg)).pics, r, Any, h);
    FilterKeeps(r, InUse, Any, h);
    FilterKeeps(Slide(r, MaxRefs(cfg)).pics, InUse, Any, h);
  }

  lemma LowestHas(pics: seq<Pic>, h: Pic -> bool)
    requires Each(pics, h)
    ensures Lowest(pics) >= 0 ==> h(pics[Lowest(pics)])
  {
  }

  /** The IDR frame of count zero, alone, leaves when a later one arrives. */
  lemma FirstLeaves(t: State, cur: Pic, cfg: Config)
    requires cfg.mode != NormalLatency && |t.pics| <= 1 && Each(t.pics, WaitsAt(0, true)) && cur.poc > 0
    ensures Lowest(BumpWhile(t, Some(cur), cfg.mode, cfg).pics) < 0
  {
    hide BumpWhile, Lasting;
    WaitsLasts(0, true);
    BumpWhileKeeps(t, Some(cur), cfg.mode, cfg, Any, WaitsAt(0, true));
    BumpWhileShape(t, Some(cur), cfg.mode, cfg);
    LowestHas(BumpWhile(t, Some(cur), cfg.mode, cfg).pics, WaitsAt(0, true));
    BumpWhileStops(t, Some(cur), cfg.mode, cfg);
  }

  /** A frame that is no reference leaves when another one arrives, whatever that one's order count. */
  lemma NonReferenceLeaves(t: State, cur: Pic, cfg: Config)
    requires cfg.mode != NormalLatency && Each(t.pics, WaitsAt(4, false)) && cur.refPic
    ensures Lowest(BumpWhile(t, Some(cur), cfg.mode, cfg).pics) < 0
  {
    hide BumpWhile, Lasting;
    WaitsLasts(4, false);
    BumpWhileKeeps(t, Some(cur), cfg.mode, cfg, Any, WaitsAt(4, false));
    LowestHas(BumpWhile(t, Some(cur), cfg.mode, cfg).pics, WaitsAt(4, false));
    BumpWhileStops(t, Some(cur), cfg.mode, cfg);
  }

  lemma OnlyTheNew(t: State, cur: Pic, cfg: Config)
    requires Lowest(BumpWhile(t, Some(cur), cfg.mode, cfg).pics) < 0
    ensures Each(Stepped(t, cur, cfg).pics, WaitsAt(cur.poc, cur.refPic))
    ensures |Stepped(t, cur, cfg).pics| <= |t.pics| + 1
  {
    hide BumpWhile, Lasting;
    var r := Insert(t, cur, cfg);
    WaitsLasts(cur.poc, cur.refPic);
    BumpWhileShape(t, Some(cur), cfg.mode, cfg);
    assert Each(r.pics, WaitsAt(cur.poc, cur.refPic));
    BumpWhileKeeps(r, None, cfg.mode, cfg, Any, WaitsAt(cur.poc, cur.refPic));
    BumpWhileShape(r, None, cfg.mode, cfg);
  }

  lemma EarlyFirst(cfg: Config)
    requires cfg.maxFrameNum > 0
    ensures var st := Run(Fill(1, cfg), cfg);
            && Each(st.pics, WaitsAt(0, true)) && |st.pics| <= 1 && Filled(st, 1, cfg) && |st.finished| == 1
  {
    hide Start, Marked, MarkedState, Stepped, Run, Filled, BumpWhile;
    var s := FillFrame(0, cfg);
    var g := Start(Initial, s, cfg).st;
    FirstFinds(cfg);
    FillFirst(cfg);
    StepIsStepped(Initial, s, cfg);
    CurrentKeeps(g, s, cfg);
    CurrentNumbers(g, s, cfg);
    var t, cur := Marked(g, s, cfg), CurrentPic(g, s, cfg);
    BumpWhileUnfolds(t, Some(cur), cfg.mode, cfg);
    OnlyTheNew(t, cur, cfg);
    StartSound(Initial, s, cfg);
    MarkedSound(g, s, cfg);
    SteppedFinishes(t, cur, cfg);
  }

  lemma EarlySecond(st: State, s: Slice, cfg: Config)
    requires NoGap(st, s, cfg) && Each(st.pics, WaitsAt(0, true)) && |st.pics| <= 1 && cfg.mode != NormalLatency
    requires !s.isRef && s.poc == 4
    ensures var r := Step(st, s, cfg);
            && Each(r.pics, WaitsAt(4, false)) && r.finished == st.finished + [NewPic(s)]
            && r.discarded == st.discarded && r.prevRefFrameNum == st.prevRefFrameNum && Sound(r, cfg)
  {
    hide Start, Marked, Stepped, Lasting, Step;
    WaitsLasts(0, true);
    NoGapMarked(st, s, cfg, WaitsAt(0, true));
    var g := Start(st, s, cfg).st;
    var t := Marked(g, s, cfg);
    FirstLeaves(t, NewPic(s), cfg);
    OnlyTheNew(t, NewPic(s), cfg);
    StepIsStepped(st, s, cfg);
    StepAppends(st, s, cfg);
    StartSound(st, s, cfg);
    MarkedSound(g, s, cfg);
    SteppedNumber(t, NewPic(s), cfg);
    StepSound(st, s, cfg);
  }

  lemma EarlyThird(st: State, s: Slice, cfg: Config)
    requires NoGap(st, s, cfg) && Each(st.pics, WaitsAt(4, false)) && cfg.mode != NormalLatency
    requires s.isRef && s.poc == 2
    ensures var r := Step(st, s, cfg);
            Each(r.pics, WaitsAt(2, true)) && st.finished <= r.finished && r.discarded == st.discarded
  {
    hide Start, Marked, Stepped, Lasting, Step;
    WaitsLasts(4, false);
    NoGapMarked(st, s, cfg, WaitsAt(4, false));
    var t := Marked(Start(st, s, cfg).st, s, cfg);
    NonReferenceLeaves(t, NewPic(s), cfg);
    OnlyTheNew(t, NewPic(s), cfg);
    StepIsStepped(st, s, cfg);
    StepAppends(st, s, cfg);
  }

  lemma EarlyRuns(cfg: Config)
    requires cfg.maxFrameNum > 0 && cfg.mode != NormalLatency
    ensures Numbered(Early(cfg), cfg)
    ensures var st := Run(Early(cfg), cfg);
            && Each(st.pics, WaitsAt(2, true)) && st.discarded == []
            && |st.finished| > 1 && st.finished[1].poc == 4
  {
    hide Run, Step, Each;
    var ss := Early(cfg);
    assert ss[..1] == Fill(1, cfg) && ss[..2][..1] == ss[..1] && ss[..3] == ss;
    EarlyFirst(cfg);
    RunSteps(ss, 1, cfg);
    EarlySecond(Run(ss[..1], cfg), ss[1], cfg);
    RunSteps(ss, 2, cfg);
    EarlyThird(Run(ss[..2], cfg), ss[2], cfg);
  }

  lemma FinishedIsOut(st: State, k: nat, q: Pic -> bool) returns (i: nat)
    requires Conserved(st, q) && st.discarded == [] && k < |st.finished| && q(st.finished[k])
    requires forall j :: 0 <= j < |st.pics| ==> !WaitingAnd(q)(st.pics[j])
    ensures i < |st.emitted| && q(st.emitted[i])
  {
    hide Conserved;
    ConservedCount(st, q);
    CountAll(st.finished, q, |st.finished|);
    CountAll(st.pics, WaitingAnd(q), |st.pics|);
    CountAll(st.emitted, q, |st.emitted|);
    i :| 0 <= i < |st.emitted| && q(st.emitted[i]);
  }

  /** The non-reference frame has left, before a frame that precedes it. */
  lemma EarlyLeaves(cfg: Config) returns (i: nat)
    requires cfg.maxFrameNum > 0 && cfg.mode != NormalLatency
    ensures Numbered(Early(cfg), cfg)
    ensures i < |Run(Early(cfg), cfg).emitted| && Run(Early(cfg), cfg).emitted[i].poc == 4
  {
    hide Run, Conserved;
    EarlyRuns(cfg);
    var st, q := Run(Early(cfg), cfg), PocIs(4);
    RunConserves(Early(cfg), cfg, q);
    assert forall j :: 0 <= j < |st.pics| ==> WaitsAt(2, true)(st.pics[j]);
    i := FinishedIsOut(st, 1, q);
  }

  lemma EarlyIsEarly(cfg: Config)
    requires cfg.maxFrameNum > 0 && cfg.mode != NormalLatency
    requires cfg.limits.maxNumReorderFrames > 0
    ensures Bounded(Early(cfg), 0, 3, cfg) && Ordinary(Early(cfg)) && !AllTimely(Early(cfg), 0, 3, cfg)
  {
    hide Run, Bounded, AllTimely, Count, Ordinary;
    var ss := Early(cfg);
    EarlyBounded(cfg);
    var i := EarlyLeaves(cfg);
    assert ss[0..3] == ss;
    assert !Covered(ss, 0, 2, 4, cfg.limits.maxNumReorderFrames);
    if AllTimely(ss, 0, 3, cfg) {
      AllCovered(ss, i, cfg);
      assert false;
    }
  }

  // ---- The limits that keep the order --------------------------------------------------------------------------

  lemma EnoughRoom(cfg: Config)
    requires cfg.limits.maxNumReorderFrames == 0 || RoomToReorder(cfg)
    ensures KeepsOrder(cfg)
  {
    hide LeavesInOrder, AllTimely, EverMeets, SameSequence, InTime;
    forall ss: seq<Slice>, b: nat, e: nat | Bounded(ss, b, e, cfg) && !EverMeets(ss, cfg, MaxRefs(cfg))
      ensures LeavesInOrder(ss, b, e, cfg)
    {
      if cfg.limits.maxNumReorderFrames == 0 {
        NothingReordered(ss, b, e, cfg);
        SequenceInOrder(ss, b, e, cfg);
      } else {
        NormalOrder(ss, b, e, cfg);
      }
    }
  }

  /** The decoder puts all these sequences in order, or only those of ordinary streams, if and only if nothing may be
      reordered, or frames wait until the buffer is full and it holds num_reorder_frames beside the references. */
  lemma KeepsOrderIff(cfg: Config)
    requires cfg.maxFrameNum > 0 && MaxRefs(cfg) <= cfg.limits.maxNumFrames
    ensures KeepsOrder(cfg) <==> cfg.limits.maxNumReorderFrames == 0 || RoomToReorder(cfg)
    ensures KeepsOrdinary(cfg) <==> KeepsOrder(cfg)
  {
    hide KeepsOrder, KeepsOrdinary;
    if KeepsOrder(cfg) {
      KeepsMore(cfg);
    }
    if cfg.limits.maxNumReorderFrames == 0 || RoomToReorder(cfg) {
      EnoughRoom(cfg);
    } else if cfg.mode == NormalLatency {
      FillIsEarly(cfg);
      OneEarlyFrame(Fill(cfg.limits.maxNumFrames + 1, cfg), 0, cfg.limits.maxNumFrames + 1, cfg);
    } else {
      EarlyIsEarly(cfg);
      OneEarlyFrame(Early(cfg), 0, 3, cfg);
    }
  }
}
